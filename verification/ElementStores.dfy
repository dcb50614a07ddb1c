/** Assigning an element stores a whole register, whatever the stride: what that changes, for every width. */
module ElementStores {
  import opened Wrappers
  import opened Words
  import opened Arena
  import opened Heap
  import opened Arrays
  import opened ArrayOps
  import opened ArrayRuns
  import opened ResizeStride

  /** An element after a register was stored at its place. */
  function Written(x: Elem, e: Elem): Elem {
    if |e| <= |x| then Overwritten(x, e) else e[..|x|]
  }

  /** Assigning element i stores its part of the register, and changes nothing else a program sees, nor
      anything outside the header and the buffer. */
  ghost predicate AssignsOnly(h: Heap, a: nat, s: Shape, i: nat, e: Elem) {
    var m' := SetItem(h, a, i, e, s.es).mem;
    var items := Items(h.mem, a, s.es);
    && i < |items| && Items(m', a, s.es) == items[i := Written(items[i], e)]
    && Confined(h.mem, m', a, s, 0, 0)
  }

  /** Whatever register of this width is stored, and whatever memory holds outside the array's own header. */
  ghost predicate AlwaysAssigns(h: Heap, a: nat, s: Shape, i: nat, reg: nat) {
    forall m: Mem, e: Elem | SameOn(h.mem, m, a, REPR) && |e| == reg :: AssignsOnly(h.(mem := m), a, s, i, e)
  }

  /** The register ends in the buffer, and covers no further element. */
  predicate RegisterFits(s: Shape, len: nat, i: nat, reg: nat) {
    (s.off + i) * s.es + reg <= s.cap * s.es && (reg <= s.es || i + 1 == len)
  }

  lemma StorePlace(h: Heap, a: nat, s: Shape, i: nat)
    requires ArrayOK(h, a, s)
    ensures ElemPtr(h.mem, a) + i * s.es == s.buf + 16 + (s.off + i) * s.es
  {
    hide Word;
    assert (s.off + i) * s.es == s.off * s.es + i * s.es;
  }

  /** The last element, through a register wider than it. */
  lemma WideEffect(h: Heap, a: nat, s: Shape, i: nat, e: Elem)
    requires HeapOK(h) && ArrayOK(h, a, s) && a - HEADER != s.buf && i + 1 == Length(h.mem, a)
    requires |e| > s.es && RegisterFits(s, i + 1, i, |e|)
    ensures AssignsOnly(h, a, s, i, e)
  {
    hide Word, Limit, Inv, Item, Put, HeapOK;
    var m, p, q := h.mem, ElemPtr(h.mem, a), ElemPtr(h.mem, a) + i * s.es;
    OwnRegions(h, a, s);
    StorePlace(h, a, s, i);
    MulNonNeg(s.off + i, s.es);
    var m' := SetItem(h, a, i, e, s.es).mem;
    HeaderApart(a, s, m, q, e);
    HeaderSame(m, m', a);
    forall j | 0 <= j < i ensures Item(m', p, s.es, j) == Item(m, p, s.es, j) {
      ItemBound(j, i, s.es);
      MulNonNeg(j, s.es);
      PutElsewhere(m, q, e, p + j * s.es, s.es);
      ItemSame(m, m', p, s.es, j);
    }
    WideItem(m, p, s.es, i, e);
    PutOutside(m, q, e);
    assert Items(m', a, s.es) == Items(m, a, s.es)[i := Written(Items(m, a, s.es)[i], e)];
  }

  lemma ItemSame(m: Mem, m': Mem, p: nat, es: nat, j: nat)
    requires SameOn(m, m', p + j * es, es)
    ensures Item(m', p, es, j) == Item(m, p, es, j)
  {
    hide Get;
    GetSame(m, m', p + j * es, es);
  }

  lemma WideItem(m: Mem, p: nat, es: nat, i: nat, e: Elem)
    requires |e| > es
    ensures |Item(m, p, es, i)| == es && Item(Put(m, p + i * es, e), p, es, i) == Written(Item(m, p, es, i), e)
  {
  }

  lemma Assigns(h: Heap, a: nat, s: Shape, i: nat, reg: nat)
    requires HeapOK(h) && ArrayOK(h, a, s) && a - HEADER != s.buf && i < Length(h.mem, a)
    requires RegisterFits(s, Length(h.mem, a), i, reg)
    ensures AlwaysAssigns(h, a, s, i, reg)
  {
    hide Word, HeapOK, Items, SameOn, Confined, ArrayOK, SetItem, RegisterFits;
    forall m: Mem, e: Elem | SameOn(h.mem, m, a, REPR) && |e| == reg ensures AssignsOnly(h.(mem := m), a, s, i, e) {
      ArrayAnyMemory(h, m, a, s);
      HeapKept(h, h.(mem := m));
      if reg <= s.es { AssignEffect(h.(mem := m), a, s, i, e); } else { WideAssigns(h.(mem := m), a, s, i, e); }
    }
  }

  lemma WideAssigns(h: Heap, a: nat, s: Shape, i: nat, e: Elem)
    requires HeapOK(h) && ArrayOK(h, a, s) && a - HEADER != s.buf && i < Length(h.mem, a)
    requires |e| > s.es && RegisterFits(s, Length(h.mem, a), i, |e|)
    ensures AssignsOnly(h, a, s, i, e)
  {
    hide HeapOK, ArrayOK, AssignsOnly, Word;
    WideEffect(h, a, s, i, e);
  }

  /** Memory in which byte x is one. */
  function OneAt(m: Mem, x: nat): Mem { Put(m, x, [1]) }

  lemma OneAtBytes(m: Mem, x: nat, a: nat)
    requires !(a <= x < a + REPR)
    ensures OneAt(m, x)(x) == 1 && SameOn(m, OneAt(m, x), a, REPR)
  {
  }

  lemma StoredZero(h: Heap, a: nat, s: Shape, i: nat, reg: nat, x: nat)
    requires ElemPtr(h.mem, a) + i * s.es <= x < ElemPtr(h.mem, a) + i * s.es + reg
    ensures SetItem(h, a, i, Zeros(reg), s.es).mem(x) == 0
  {
    hide Word;
  }

  /** A register that runs past the buffer changes the byte behind it, which is never in the array's header. */
  lemma RunsPast(h: Heap, a: nat, s: Shape, i: nat, reg: nat)
    requires HeapOK(h) && ArrayOK(h, a, s) && a - HEADER != s.buf && i < Length(h.mem, a)
    requires (s.off + i) * s.es + reg > s.cap * s.es
    ensures !AlwaysAssigns(h, a, s, i, reg)
  {
    hide Word, HeapOK, Items, Limit, SetItem, Put;
    OwnRegions(h, a, s);
    StorePlace(h, a, s, i);
    ElementsInside(h, a, s);
    ItemBound(i, Length(h.mem, a), s.es);
    var x := s.buf + BufSize(s);
    var m := OneAt(h.mem, x);
    OneAtBytes(h.mem, x, a);
    ArrayAnyMemory(h, m, a, s);
    StoredZero(h.(mem := m), a, s, i, reg, x);
    assert !Confined(m, SetItem(h.(mem := m), a, i, Zeros(reg), s.es).mem, a, s, 0, 0);
    assert !AssignsOnly(h.(mem := m), a, s, i, Zeros(reg));
  }

  /** A register that covers the next element changes it. */
  lemma RunsInto(h: Heap, a: nat, s: Shape, i: nat, reg: nat)
    requires HeapOK(h) && ArrayOK(h, a, s) && a - HEADER != s.buf && i + 1 < Length(h.mem, a)
    requires reg > s.es && (s.off + i) * s.es + reg <= s.cap * s.es
    ensures !AlwaysAssigns(h, a, s, i, reg)
  {
    hide Word, HeapOK, Items, Limit, SetItem, Put;
    var p, len := ElemPtr(h.mem, a), Length(h.mem, a);
    OwnRegions(h, a, s);
    StorePlace(h, a, s, i);
    ElementsInside(h, a, s);
    ItemBound(i + 1, len, s.es);
    assert (i + 1) * s.es == i * s.es + s.es;
    MulNonNeg(i, s.es);
    MulNonNeg(s.off + i, s.es);
    var x := p + (i + 1) * s.es;
    var m := OneAt(h.mem, x);
    OneAtBytes(h.mem, x, a);
    ArrayAnyMemory(h, m, a, s);
    NextChanged(h.(mem := m), a, s, i, reg);
  }

  lemma NextChanged(h: Heap, a: nat, s: Shape, i: nat, reg: nat)
    requires ArrayOK(h, a, s) && OwnApart(a, s) && i + 1 < Length(h.mem, a)
    requires reg > s.es && (s.off + i) * s.es + reg <= s.cap * s.es
    requires h.mem(ElemPtr(h.mem, a) + Span(i + 1, s.es)) == 1
    ensures !AssignsOnly(h, a, s, i, Zeros(reg))
  {
    hide Word, Limit, Put, ItemsAt;
    var p, len, k := ElemPtr(h.mem, a), Length(h.mem, a), (i + 1) * s.es;
    StorePlace(h, a, s, i);
    MulNonNeg(s.off + i, s.es);
    ItemBound(i + 1, len, s.es);
    assert k == i * s.es + s.es;
    var m' := SetItem(h, a, i, Zeros(reg), s.es).mem;
    HeaderApart(a, s, h.mem, p + i * s.es, Zeros(reg));
    HeaderSame(h.mem, m', a);
    StoredZero(h, a, s, i, reg, p + k);
    ItemByte(h.mem, p, s.es, len, k);
    ItemByte(m', p, s.es, len, k);
    WholeIndex(i + 1, s.es);
  }

  lemma WholeIndex(j: nat, es: nat)
    requires es > 0
    ensures (j * es) / es == j
  {
    ModUnique(j * es, es, j, 0);
  }

  /** An assignment through a register of any width, in any world, does what it is for and nothing else,
      for all contents, exactly when the register ends in the buffer and is no wider than the stride, or
      ends in the buffer behind the last element. */
  lemma AssignsExactly(w: World, a: nat, i: nat, reg: nat)
    requires WorldOK(w) && a in w.arrays && i < Length(w.h.mem, a)
    ensures var s := w.arrays[a];
      AlwaysAssigns(w.h, a, s, i, reg) <==> RegisterFits(s, Length(w.h.mem, a), i, reg)
  {
    hide Word, HeapOK, AlwaysAssigns, ArrayOK;
    var s := w.arrays[a];
    if RegisterFits(s, Length(w.h.mem, a), i, reg) { Assigns(w.h, a, s, i, reg); }
    else if (s.off + i) * s.es + reg > s.cap * s.es { RunsPast(w.h, a, s, i, reg); }
    else { RunsInto(w.h, a, s, i, reg); }
  }
}

/** The array runtime: each operation on one array, against the sequence a program sees. */
module ArrayOps {
  import opened Wrappers
  import opened Words
  import opened Arena
  import opened Heap
  import opened Arrays

  // ---- allocation ----

  /** A Memory object: type tag, length, then room for n elements.  The result is the element address. */
  function NewMemory(h: Heap, n: nat, es: nat, tag: nat, base: nat): Option<(Heap, nat)>
    requires Offered(base, ALIGN)
  {
    match BumpAlloc(h, 16 + Span(n, es), base)
    case None => None
    case Some((h1, p)) => Some((h1.(mem := PutWord(PutWord(h1.mem, p, tag), p + 8, n)), p + 16))
  }

  /** The array object around a Memory's elements; a null array type gives null. */
  function NewArray(h: Heap, atype: nat, elems: nat, nel: int, base: nat): Option<(Heap, nat)>
    requires Offered(base, ALIGN) && elems >= 8
  {
    if atype == 0 then Some((h, 0))
    else
      var n: nat := if nel < 0 then 0 else nel;
      match BumpAlloc(h, HEADER + REPR, base)
      case None => None
      case Some((h1, p)) =>
        Some((h1.(mem := PutHeader(PutWord(h1.mem, p, atype), p + HEADER, elems, elems - 8, n, n)), p + HEADER))
  }

  // ---- growth ----

  /** What growth writes: the new Memory object at p, its elements copied, then the header. */
  function GrowMem(m: Mem, a: nat, p: nat, newLen: nat, es: nat): Mem {
    var src, bytes := ElemPtr(m, a), Span(Length(m, a), es);
    var m1 := if src >= 16 then PutWord(m, p, Word(m, src - 16)) else m;
    var m2 := if bytes > 0 && src != 0 then Put(m1, p + 16, Get(m1, src, bytes)) else m1;
    PutHeader(PutWord(m2, p + 8, newLen), a, p + 16, p + 8, newLen, newLen)
  }

  /** Always a new buffer; a null array or a delta that is not positive changes nothing. */
  function GrowEnd(h: Heap, a: nat, delta: int, es: nat, base: nat): Option<Heap>
    requires Offered(base, ALIGN)
  {
    if a == 0 || delta <= 0 then Some(h)
    else
      var newLen: nat := Length(h.mem, a) + delta;
      match BumpAlloc(h, 16 + Span(newLen, es), base)
      case None => None
      case Some((h1, p)) => Some(h1.(mem := GrowMem(h1.mem, a, p, newLen, es)))
  }

  // ---- shrinking ----

  function Zeros(n: nat): (r: seq<Byte>)
    ensures |r| == n
  {
    seq(n, _ => 0)
  }

  function DelEnd(h: Heap, a: nat, dec: int, es: nat): Heap {
    if a == 0 || dec <= 0 then h
    else
      var len := Length(h.mem, a);
      var d := if dec <= len then dec else len;
      var n := len - d;
      var data := ElemPtr(h.mem, a);
      var m1 := if Span(d, es) > 0 && data != 0 then Put(h.mem, data + Span(n, es), Zeros(Span(d, es))) else h.mem;
      var m2 := PutWord(m1, a + 16, n);
      h.(mem := if MemObj(m2, a) != 0 then PutWord(m2, MemObj(m2, a), n) else m2)
  }

  function Resize(h: Heap, a: nat, n: int, es: nat, base: nat): Option<Heap>
    requires Offered(base, ALIGN)
  {
    if a == 0 then Some(h)
    else
      var cur := Length(h.mem, a);
      var n' := if n < 0 then 0 else n;
      if n' > cur then GrowEnd(h, a, n' - cur, es, base)
      else if n' < cur then Some(DelEnd(h, a, cur - n', es))
      else Some(h)
  }

  // ---- front compaction, by the compiler's own field stores ----

  /** setfield!(a, :size, v), clamped at zero. */
  function SetSize(h: Heap, a: nat, v: int): Heap {
    h.(mem := PutWord(h.mem, a + 16, if v < 0 then 0 else v))
  }

  /** setfield!(a, :ref, v), clamped to capacity - length elements past the old pointer. */
  function SetRef(h: Heap, a: nat, v: nat, es: nat): Heap {
    var maxRef := ElemPtr(h.mem, a) + (Capacity(h.mem, a) - Length(h.mem, a)) * es;
    h.(mem := PutWord(h.mem, a, if v > maxRef && maxRef >= 0 then maxRef else v))
  }

  /** Dropping delta elements from the front: the size first, then the pointer. */
  function CompactFront(h: Heap, a: nat, delta: nat, es: nat): Heap {
    var ref := ElemPtr(h.mem, a);
    SetRef(SetSize(h, a, Length(h.mem, a) - delta), a, ref + Span(delta, es), es)
  }

  // ---- elements ----

  function SetItem(h: Heap, a: nat, i: nat, e: Elem, es: nat): Heap {
    h.(mem := Put(h.mem, ElemPtr(h.mem, a) + i * es, e))
  }

  // ---- what an operation may touch ----

  /** Only the array's header, its buffer, and n bytes at p may differ. */
  ghost predicate Confined(m: Mem, m': Mem, a: nat, s: Shape, p: nat, n: nat) {
    forall x: nat | !(a <= x < a + REPR) && !(s.buf <= x < s.buf + BufSize(s)) && !(p <= x < p + n) :: m'(x) == m(x)
  }

  /** The array's own regions do not overlap each other. */
  ghost predicate OwnApart(a: nat, s: Shape) {
    a >= HEADER && Arena.Apart(a - HEADER, HEADER + REPR, s.buf, BufSize(s))
  }

  lemma OwnRegions(h: Heap, a: nat, s: Shape)
    requires HeapOK(h) && ArrayOK(h, a, s) && a - HEADER != s.buf
    ensures OwnApart(a, s) && s.buf + BufSize(s) < Limit() && a + REPR < Limit()
  {
    hide Word, Limit;
    GrantsDisjoint(h, Grant(a - HEADER, HEADER + REPR), Grant(s.buf, BufSize(s)));
    GrantBound(h, Grant(s.buf, BufSize(s)));
    GrantBound(h, Grant(a - HEADER, HEADER + REPR));
  }

  // ---- growth keeps the prefix ----

  /** One byte of the copy. */
  lemma GrowCopies(m: Mem, a: nat, p: nat, newLen: nat, es: nat, k: nat)
    requires k < Span(Length(m, a), es) && ElemPtr(m, a) != 0
    requires !(p <= ElemPtr(m, a) + k < p + 8) && !(a <= p + 16 + k < a + REPR)
    ensures GrowMem(m, a, p, newLen, es)(p + 16 + k) == m(ElemPtr(m, a) + k)
  {
    hide Word, BytesOf, PutHeader, Span;
    var src, bytes := ElemPtr(m, a), Span(Length(m, a), es);
    var m1 := if src >= 16 then PutWord(m, p, Word(m, src - 16)) else m;
    var m2 := Put(m1, p + 16, Get(m1, src, bytes));
    HeaderElsewhere(PutWord(m2, p + 8, newLen), a, p + 16, p + 8, newLen, newLen, p + 16 + k);
    TagWritten(m, p, src, src + k);
    CopiedByte(m1, p + 16, src, bytes, p + 16 + k);
  }

  /** Bytes outside the header, the new Memory object's two words and the copy. */
  lemma GrowKeeps(m: Mem, a: nat, p: nat, newLen: nat, es: nat, x: nat)
    requires !(a <= x < a + REPR) && !(p <= x < p + 16 + Span(Length(m, a), es))
    ensures GrowMem(m, a, p, newLen, es)(x) == m(x)
  {
    hide Word, BytesOf, PutHeader, Span;
    var src, bytes := ElemPtr(m, a), Span(Length(m, a), es);
    var m1 := if src >= 16 then PutWord(m, p, Word(m, src - 16)) else m;
    var m2 := if bytes > 0 && src != 0 then Put(m1, p + 16, Get(m1, src, bytes)) else m1;
    HeaderElsewhere(PutWord(m2, p + 8, newLen), a, p + 16, p + 8, newLen, newLen, x);
    TagWritten(m, p, src, x);
  }

  lemma TagWritten(m: Mem, p: nat, src: nat, x: nat)
    requires !(p <= x < p + 8)
    ensures var m1: Mem := if src >= 16 then PutWord(m, p, Word(m, src - 16)) else m; m1(x) == m(x)
  {
    hide Word, BytesOf;
  }

  lemma CopiedByte(m: Mem, q: nat, src: nat, n: nat, x: nat)
    requires q <= x < q + n
    ensures Put(m, q, Get(m, src, n))(x) == m(src + (x - q))
  {
  }

  /** The first n bytes of the copy, whatever stride its extent was computed with. */
  lemma GrowMoves(m: Mem, a: nat, p: nat, newLen: nat, es: nat, n: nat)
    requires n <= Span(Length(m, a), es) && ElemPtr(m, a) != 0
    requires Arena.Apart(p, 16, ElemPtr(m, a), n) && Arena.Apart(p, 16 + n, a, REPR)
    ensures Moved(m, ElemPtr(m, a), GrowMem(m, a, p, newLen, es), p + 16, n)
  {
    hide Word, BytesOf, PutHeader, GrowMem, Span;
    var m' := GrowMem(m, a, p, newLen, es);
    forall k | 0 <= k < n ensures Get(m', p + 16, n)[k] == Get(m, ElemPtr(m, a), n)[k] {
      GrowCopies(m, a, p, newLen, es, k);
    }
  }

  lemma GrowHeader(m: Mem, a: nat, p: nat, newLen: nat, es: nat)
    requires p + 16 < Limit() && newLen < Limit()
    ensures var m' := GrowMem(m, a, p, newLen, es);
      ElemPtr(m', a) == p + 16 && MemObj(m', a) == p + 8 && Length(m', a) == newLen == Capacity(m', a)
  {
    hide Word, PutWord, Put, Get, Limit, PutHeader, Span;
    var src, bytes := ElemPtr(m, a), Span(Length(m, a), es);
    var m1 := if src >= 16 then PutWord(m, p, Word(m, src - 16)) else m;
    var m2 := if bytes > 0 && src != 0 then Put(m1, p + 16, Get(m1, src, bytes)) else m1;
    HeaderPut(PutWord(m2, p + 8, newLen), a, p + 16, p + 8, newLen, newLen);
  }

  /** The new Memory's length word. */
  lemma GrowLengthWord(m: Mem, a: nat, p: nat, newLen: nat, es: nat)
    requires newLen < Limit() && Arena.Apart(p, 16, a, REPR)
    ensures Word(GrowMem(m, a, p, newLen, es), p + 8) == newLen
  {
    hide Word, Put, Get, Limit, BytesOf, PutHeader, Span;
    var src, bytes := ElemPtr(m, a), Span(Length(m, a), es);
    var m1 := if src >= 16 then PutWord(m, p, Word(m, src - 16)) else m;
    var m2 := if bytes > 0 && src != 0 then Put(m1, p + 16, Get(m1, src, bytes)) else m1;
    var m3 := PutWord(m2, p + 8, newLen);
    WordPut(m2, p + 8, newLen);
    forall x: nat | p + 8 <= x < p + 16 ensures GrowMem(m, a, p, newLen, es)(x) == m3(x) {
      HeaderElsewhere(m3, a, p + 16, p + 8, newLen, newLen, x);
    }
    WordSame(m3, GrowMem(m, a, p, newLen, es), p + 8);
  }

  /** The new Memory's type tag is the word sixteen bytes before the old elements. */
  lemma GrowTagWord(m: Mem, a: nat, p: nat, newLen: nat, es: nat)
    requires ElemPtr(m, a) >= 16 && Word(m, ElemPtr(m, a) - 16) < Limit() && Arena.Apart(p, 16, a, REPR)
    ensures Word(GrowMem(m, a, p, newLen, es), p) == Word(m, ElemPtr(m, a) - 16)
  {
    hide Word, Put, Get, Limit, BytesOf, PutHeader, Span;
    var src, bytes := ElemPtr(m, a), Span(Length(m, a), es);
    var m1 := PutWord(m, p, Word(m, src - 16));
    var m2 := if bytes > 0 then Put(m1, p + 16, Get(m1, src, bytes)) else m1;
    var m3 := PutWord(m2, p + 8, newLen);
    WordPut(m, p, Word(m, src - 16));
    if bytes > 0 { PutElsewhere(m1, p + 16, Get(m1, src, bytes), p, W); }
    PutElsewhere(m2, p + 8, BytesOf(newLen, W), p, W);
    forall x: nat | p <= x < p + W ensures GrowMem(m, a, p, newLen, es)(x) == m1(x) {
      HeaderElsewhere(m3, a, p + 16, p + 8, newLen, newLen, x);
    }
    WordSame(m1, GrowMem(m, a, p, newLen, es), p);
  }

  // ---- growth, as a program sees it ----

  lemma GrowConfined(m: Mem, a: nat, s: Shape, p: nat, newLen: nat, es: nat)
    requires Length(m, a) <= newLen
    ensures Confined(m, GrowMem(m, a, p, newLen, es), a, s, p, 16 + Span(newLen, es))
  {
    hide Word, GrowMem;
    var m' := GrowMem(m, a, p, newLen, es);
    MulMono(Length(m, a), newLen, es);
    forall x: nat | !(a <= x < a + REPR) && !(p <= x < p + (16 + Span(newLen, es))) ensures m'(x) == m(x) {
      GrowKeeps(m, a, p, newLen, es, x);
    }
  }

  /** The elements of an array whose pointer is inside its buffer, apart from a new region. */
  lemma SourceApart(h: Heap, a: nat, s: Shape, p: nat, n: nat)
    requires ArrayOK(h, a, s) && Clear(h, p, n)
    ensures Arena.Apart(p, n, ElemPtr(h.mem, a), Span(Length(h.mem, a), s.es)) && ElemPtr(h.mem, a) >= 16
    ensures Arena.Apart(p, n, a - HEADER, HEADER + REPR) && Arena.Apart(p, n, s.buf, BufSize(s))
  {
    hide Word;
    ElementsInside(h, a, s);
    assert Grant(s.buf, BufSize(s)) in h.grants && Grant(a - HEADER, HEADER + REPR) in h.grants;
  }

  lemma GrowRoom(h: Heap, a: nat, s: Shape, p: nat, newLen: nat, es: nat)
    requires ArrayOK(h, a, s) && Length(h.mem, a) <= newLen && Clear(h, p, 16 + Span(newLen, es))
    requires s.es <= es || Length(h.mem, a) == 0
    ensures var src, bytes := ElemPtr(h.mem, a), Span(Length(h.mem, a), s.es);
      && src != 0 && Arena.Apart(p, 16, src, bytes) && Arena.Apart(p, 16 + bytes, a, REPR)
      && bytes <= Span(Length(h.mem, a), es)
  {
    hide Word;
    SourceApart(h, a, s, p, 16 + Span(newLen, es));
    var n := Length(h.mem, a);
    MulMono(n, newLen, es);
    if n > 0 { MulMono(s.es, es, n); }
  }

  /** Growth with any stride argument that is at least the real one keeps the elements. */
  lemma GrowItems(h: Heap, a: nat, s: Shape, p: nat, newLen: nat, es: nat)
    requires ArrayOK(h, a, s) && Length(h.mem, a) <= newLen && Clear(h, p, 16 + Span(newLen, es))
    requires s.es <= es || Length(h.mem, a) == 0
    requires p + 16 < Limit() && newLen < Limit()
    ensures var m' := GrowMem(h.mem, a, p, newLen, es);
      |Items(m', a, s.es)| == newLen && Items(m', a, s.es)[..Length(h.mem, a)] == Items(h.mem, a, s.es)
  {
    hide Word, GrowMem, Item, Moved, Limit, ArrayOK, Clear, ItemsAt, Arena.Apart, ElemPtr, Length;
    var n := Length(h.mem, a);
    var m' := GrowMem(h.mem, a, p, newLen, es);
    GrowRoom(h, a, s, p, newLen, es);
    GrowMoves(h.mem, a, p, newLen, es, Span(n, s.es));
    GrowHeader(h.mem, a, p, newLen, es);
    ItemsMoved(h.mem, ElemPtr(h.mem, a), m', p + 16, n, s.es);
    ItemsPrefix(m', p + 16, s.es, n, newLen);
  }

  /** Growth by a positive amount: the old elements are the prefix, the new Memory object is consistent,
      and nothing but the header and the new region has changed. */
  lemma GrowEffect(h: Heap, a: nat, s: Shape, delta: int, base: nat)
    requires HeapOK(h) && ArrayOK(h, a, s) && delta > 0
    requires var total := 16 + Span(Length(h.mem, a) + delta, s.es);
      Usable(h, base, total) && GrowEnd(h, a, delta, s.es, base).Some?
    ensures var h' := GrowEnd(h, a, delta, s.es, base).value;
      var newLen: nat := Length(h.mem, a) + delta;
      && HeapOK(h') && |h'.grants| > 0 && h'.grants == h.grants + [h'.grants[|h'.grants| - 1]]
      && var g := h'.grants[|h'.grants| - 1];
        && g.size == 16 + Span(newLen, s.es) && Clear(h, g.addr, g.size)
        && ArrayOK(h', a, Shape(s.es, g.addr, newLen, 0))
        && |Items(h'.mem, a, s.es)| == newLen && Items(h'.mem, a, s.es)[..Length(h.mem, a)] == Items(h.mem, a, s.es)
        && MemObj(h'.mem, a) == ElemPtr(h'.mem, a) - 8 && Word(h'.mem, MemObj(h'.mem, a)) == newLen
        && (s.off == 0 && Word(h.mem, s.buf) < Limit() ==> Word(h'.mem, g.addr) == Word(h.mem, s.buf))
        && Confined(h.mem, h'.mem, a, s, g.addr, g.size)
  {
    hide Word, GrowMem, Items, Limit, Inv, GrantsApart, Bump;
    var newLen: nat := Length(h.mem, a) + delta;
    var total := 16 + Span(newLen, s.es);
    AllocSafe(h, total, base);
    var (h1, p) := BumpAlloc(h, total, base).value;
    assert Grant(p, total) in h1.grants;
    GrantBound(h1, Grant(p, total));
    MulGrowsBy(newLen, s.es);
    SourceApart(h, a, s, p, total);
    GrowItems(h, a, s, p, newLen, s.es);
    GrowHeader(h.mem, a, p, newLen, s.es);
    GrowLengthWord(h.mem, a, p, newLen, s.es);
    if s.off == 0 && Word(h.mem, s.buf) < Limit() { GrowTagWord(h.mem, a, p, newLen, s.es); }
    GrowConfined(h.mem, a, s, p, newLen, s.es);
  }

  lemma MulGrowsBy(n: nat, es: nat)
    requires es > 0
    ensures n * es >= n
  {
    MulMono(1, es, n);
  }

  // ---- shrinking, as a program sees it ----

  lemma HeaderApart(a: nat, s: Shape, m: Mem, q: nat, bs: seq<Byte>)
    requires OwnApart(a, s) && s.buf <= q && q + |bs| <= s.buf + BufSize(s)
    ensures SameOn(m, Put(m, q, bs), a, REPR)
  {
    PutElsewhere(m, q, bs, a, REPR);
  }

  /** The memory after a deletion of d elements that leaves n. */
  function DelMem(m: Mem, a: nat, n: nat, d: nat, es: nat): Mem {
    var data := ElemPtr(m, a);
    var m1 := if Span(d, es) > 0 && data != 0 then Put(m, data + Span(n, es), Zeros(Span(d, es))) else m;
    var m2 := PutWord(m1, a + 16, n);
    if MemObj(m2, a) != 0 then PutWord(m2, MemObj(m2, a), n) else m2
  }

  /** The zeroed bytes lie in the buffer. */
  ghost predicate TailInside(h: Heap, a: nat, s: Shape, n: nat, d: nat, es: nat) {
    ElemPtr(h.mem, a) + Span(n, es) + Span(d, es) <= s.buf + BufSize(s)
  }

  lemma DelRoom(h: Heap, a: nat, s: Shape, n: nat, d: nat)
    requires ArrayOK(h, a, s) && n + d == Length(h.mem, a)
    ensures TailInside(h, a, s, n, d, s.es)
  {
    hide Word;
    ElementsInside(h, a, s);
    assert (n + d) * s.es == n * s.es + d * s.es;
  }

  lemma DelHeader(h: Heap, a: nat, s: Shape, n: nat, d: nat, es: nat)
    requires ArrayOK(h, a, s) && OwnApart(a, s) && TailInside(h, a, s, n, d, es) && n < Limit()
    ensures var m' := DelMem(h.mem, a, n, d, es);
      && ElemPtr(m', a) == ElemPtr(h.mem, a) && MemObj(m', a) == MemObj(h.mem, a)
      && Length(m', a) == n && Capacity(m', a) == Capacity(h.mem, a) && Word(m', MemObj(m', a)) == n
  {
    hide Word, PutWord, Put, Limit, Span, Zeros;
    ElementsInside(h, a, s);
    var m, data := h.mem, ElemPtr(h.mem, a);
    var m1 := if Span(d, es) > 0 && data != 0 then Put(m, data + Span(n, es), Zeros(Span(d, es))) else m;
    HeaderApart(a, s, m, data + Span(n, es), Zeros(Span(d, es)));
    HeaderSame(m, m1, a);
    var m2 := PutWord(m1, a + 16, n);
    WordPut(m1, a + 16, n);
    WordElsewhere(m1, a + 16, n, a);
    WordElsewhere(m1, a + 16, n, a + 8);
    WordElsewhere(m1, a + 16, n, a + 24);
    var o := s.buf + 8;
    WordPut(m2, o, n);
    WordElsewhere(m2, o, n, a);
    WordElsewhere(m2, o, n, a + 8);
    WordElsewhere(m2, o, n, a + 16);
    WordElsewhere(m2, o, n, a + 24);
  }

  /** Outside the two length words, what is zeroed is zero and the rest is as it was. */
  lemma DelBytes(h: Heap, a: nat, s: Shape, n: nat, d: nat, es: nat, x: nat)
    requires ArrayOK(h, a, s) && OwnApart(a, s) && TailInside(h, a, s, n, d, es)
    requires !(a + 16 <= x < a + 24) && !(s.buf + 8 <= x < s.buf + 16)
    ensures var q := ElemPtr(h.mem, a) + Span(n, es);
      DelMem(h.mem, a, n, d, es)(x) == if q <= x < q + Span(d, es) then 0 else h.mem(x)
  {
    hide Word, BytesOf, Span;
    ElementsInside(h, a, s);
    var m, data := h.mem, ElemPtr(h.mem, a);
    var m1 := if Span(d, es) > 0 && data != 0 then Put(m, data + Span(n, es), Zeros(Span(d, es))) else m;
    HeaderApart(a, s, m, data + Span(n, es), Zeros(Span(d, es)));
    HeaderSame(m, m1, a);
    WordElsewhere(m1, a + 16, n, a + 8);
  }

  /** Zeroing with any stride argument, as long as it leaves the first n elements alone. */
  lemma DelItems(h: Heap, a: nat, s: Shape, n: nat, d: nat, es: nat)
    requires ArrayOK(h, a, s) && OwnApart(a, s) && TailInside(h, a, s, n, d, es) && n < Limit()
    requires n + d == Length(h.mem, a) && Span(n, s.es) <= Span(n, es)
    ensures Items(DelMem(h.mem, a, n, d, es), a, s.es) == Items(h.mem, a, s.es)[..n]
  {
    hide Word, Span, DelMem, Limit, ItemsAt;
    var m', p := DelMem(h.mem, a, n, d, es), ElemPtr(h.mem, a);
    DelHeader(h, a, s, n, d, es);
    DelRoom(h, a, s, n, d);
    ElementsInside(h, a, s);
    forall x: nat | p <= x < p + Span(n, s.es) ensures m'(x) == h.mem(x) {
      DelBytes(h, a, s, n, d, es, x);
    }
    GetSame(h.mem, m', p, Span(n, s.es));
    ItemsMoved(h.mem, p, m', p, n, s.es);
    ItemsPrefix(h.mem, p, s.es, n, Length(h.mem, a));
  }

  lemma DelConfined(h: Heap, a: nat, s: Shape, n: nat, d: nat, es: nat)
    requires ArrayOK(h, a, s) && OwnApart(a, s) && TailInside(h, a, s, n, d, es)
    ensures Confined(h.mem, DelMem(h.mem, a, n, d, es), a, s, 0, 0)
  {
    hide Word, Span, DelMem;
    ElementsInside(h, a, s);
    var m' := DelMem(h.mem, a, n, d, es);
    forall x: nat | !(a <= x < a + REPR) && !(s.buf <= x < s.buf + BufSize(s)) ensures m'(x) == h.mem(x) {
      DelBytes(h, a, s, n, d, es, x);
    }
  }

  lemma DelZeroes(h: Heap, a: nat, s: Shape, n: nat, d: nat, es: nat)
    requires ArrayOK(h, a, s) && OwnApart(a, s) && TailInside(h, a, s, n, d, es)
    ensures Get(DelMem(h.mem, a, n, d, es), ElemPtr(h.mem, a) + Span(n, es), Span(d, es)) == Zeros(Span(d, es))
  {
    hide Word, Span, DelMem;
    ElementsInside(h, a, s);
    var q := ElemPtr(h.mem, a) + Span(n, es);
    forall x: nat | q <= x < q + Span(d, es) ensures DelMem(h.mem, a, n, d, es)(x) == 0 {
      DelBytes(h, a, s, n, d, es, x);
    }
  }

  /** Deleting from the end drops exactly that many elements, or all; what they occupied is zeroed, and the
      buffer stays. */
  lemma DelEffect(h: Heap, a: nat, s: Shape, dec: int)
    requires HeapOK(h) && ArrayOK(h, a, s) && a - HEADER != s.buf && dec > 0
    ensures var h' := DelEnd(h, a, dec, s.es);
      var len := Length(h.mem, a);
      var n := if dec <= len then len - dec else 0;
      && h'.grants == h.grants && h'.arena == h.arena && ArrayOK(h', a, s)
      && Items(h'.mem, a, s.es) == Items(h.mem, a, s.es)[..n]
      && Get(h'.mem, ElemPtr(h.mem, a) + Span(n, s.es), Span(len - n, s.es)) == Zeros(Span(len - n, s.es))
      && Word(h'.mem, MemObj(h'.mem, a)) == n
      && Confined(h.mem, h'.mem, a, s, 0, 0)
  {
    hide Word, Span, Limit, Items, Inv, GrantsApart, DelMem, Zeros, Get;
    var len := Length(h.mem, a);
    var d := if dec <= len then dec else len;
    var n := len - d;
    var h' := DelEnd(h, a, dec, s.es);
    assert h'.mem == DelMem(h.mem, a, n, d, s.es) by { DelDefines(h, a, dec, s.es); }
    OwnRegions(h, a, s);
    LengthBound(h, a, s);
    DelRoom(h, a, s, n, d);
    DelHeader(h, a, s, n, d, s.es);
    DelItems(h, a, s, n, d, s.es);
    DelZeroes(h, a, s, n, d, s.es);
    DelConfined(h, a, s, n, d, s.es);
  }

  lemma DelDefines(h: Heap, a: nat, dec: int, es: nat)
    requires a != 0 && dec > 0
    ensures var len := Length(h.mem, a);
      var d := if dec <= len then dec else len;
      DelEnd(h, a, dec, es) == h.(mem := DelMem(h.mem, a, len - d, d, es))
  {
    hide Word, Put, PutWord, Span, Zeros;
  }

  lemma LengthBound(h: Heap, a: nat, s: Shape)
    requires HeapOK(h) && ArrayOK(h, a, s)
    ensures Length(h.mem, a) <= s.cap < Limit() && s.buf + BufSize(s) < Limit()
  {
    hide Word, Limit, Inv;
    GrantBound(h, Grant(s.buf, BufSize(s)));
    MulGrowsBy(s.cap, s.es);
  }

  // ---- compaction, as a program sees it ----

  /** Where the element pointer and length end up, for any delta. */
  lemma CompactHeader(h: Heap, a: nat, s: Shape, delta: nat)
    requires HeapOK(h) && ArrayOK(h, a, s) && a - HEADER != s.buf
    ensures var h' := CompactFront(h, a, delta, s.es);
      var len, cap := Length(h.mem, a), Capacity(h.mem, a);
      var len' := if delta <= len then len - delta else 0;
      var k := if delta <= cap - len' then delta else cap - len';
      && Length(h'.mem, a) == len' && Capacity(h'.mem, a) == cap && MemObj(h'.mem, a) == MemObj(h.mem, a)
      && ElemPtr(h'.mem, a) == ElemPtr(h.mem, a) + k * s.es
      && (forall x: nat | !(a <= x < a + REPR) :: h'.mem(x) == h.mem(x))
  {
    hide Word, PutWord, Limit, Inv, CompactFront;
    var len, cap := Length(h.mem, a), Capacity(h.mem, a);
    var len': nat := if delta <= len then len - delta else 0;
    var k: nat := if delta <= cap - len' then delta else cap - len';
    var ref := ElemPtr(h.mem, a) + Span(k, s.es);
    LengthBound(h, a, s);
    AdvanceBound(h, a, s, k);
    SizeWord(h.mem, a, len');
    CompactDefines(h, a, delta, s.es);
    RefWord(PutWord(h.mem, a + 16, len'), a, ref);
    HeaderOnly(h.mem, a, len', ref);
  }

  lemma AdvanceBound(h: Heap, a: nat, s: Shape, k: nat)
    requires HeapOK(h) && ArrayOK(h, a, s) && k <= s.cap
    ensures ElemPtr(h.mem, a) + Span(k, s.es) < Limit()
  {
    hide Word, Limit, Space, Inv;
    GrantBound(h, Grant(s.buf, BufSize(s)));
    ElementsInside(h, a, s);
    MulMono(k, s.cap, s.es);
    MulNonNeg(Length(h.mem, a), s.es);
  }

  lemma SizeWord(m: Mem, a: nat, len: nat)
    requires len < Limit()
    ensures var m' := PutWord(m, a + 16, len);
      && ElemPtr(m', a) == ElemPtr(m, a) && MemObj(m', a) == MemObj(m, a)
      && Length(m', a) == len && Capacity(m', a) == Capacity(m, a)
  {
    hide Word, PutWord, Limit;
    WordPut(m, a + 16, len);
    WordElsewhere(m, a + 16, len, a);
    WordElsewhere(m, a + 16, len, a + 8);
    WordElsewhere(m, a + 16, len, a + 24);
  }

  lemma RefWord(m: Mem, a: nat, ref: nat)
    requires ref < Limit()
    ensures var m' := PutWord(m, a, ref);
      && ElemPtr(m', a) == ref && MemObj(m', a) == MemObj(m, a)
      && Length(m', a) == Length(m, a) && Capacity(m', a) == Capacity(m, a)
  {
    hide Word, PutWord, Limit;
    WordPut(m, a, ref);
    WordElsewhere(m, a, ref, a + 8);
    WordElsewhere(m, a, ref, a + 16);
    WordElsewhere(m, a, ref, a + 24);
  }

  /** The two stores, with the pointer's clamp resolved. */
  lemma CompactDefines(h: Heap, a: nat, delta: nat, es: nat)
    requires es > 0 && Length(h.mem, a) <= Capacity(h.mem, a) && Length(h.mem, a) < Limit()
    ensures var len, cap := Length(h.mem, a), Capacity(h.mem, a);
      var len': nat := if delta <= len then len - delta else 0;
      var k: nat := if delta <= cap - len' then delta else cap - len';
      CompactFront(h, a, delta, es).mem == PutWord(PutWord(h.mem, a + 16, len'), a, ElemPtr(h.mem, a) + Span(k, es))
  {
    hide Word, PutWord, Limit;
    var len, cap := Length(h.mem, a), Capacity(h.mem, a);
    var len': nat := if delta <= len then len - delta else 0;
    SizeWord(h.mem, a, len');
    ClampedRef(ElemPtr(h.mem, a), delta, cap - len', es);
  }

  lemma HeaderOnly(m: Mem, a: nat, len: nat, ref: nat)
    ensures forall x: nat | !(a <= x < a + REPR) :: PutWord(PutWord(m, a + 16, len), a, ref)(x) == m(x)
  {
    hide BytesOf;
  }

  lemma ClampedRef(p: nat, delta: nat, slack: nat, es: nat)
    requires es > 0
    ensures p + slack * es >= 0
    ensures p + Span(delta, es) > p + slack * es <==> delta > slack
  {
    if delta > slack { MulMono(slack + 1, delta, es); assert (slack + 1) * es == slack * es + es; }
    else { MulMono(delta, slack, es); }
  }

  /** A compaction by no more than the length drops exactly that many elements from the front. */
  lemma CompactEffect(h: Heap, a: nat, s: Shape, delta: nat)
    requires HeapOK(h) && ArrayOK(h, a, s) && a - HEADER != s.buf && delta <= Length(h.mem, a)
    ensures var h' := CompactFront(h, a, delta, s.es);
      && h'.grants == h.grants && h'.arena == h.arena && ArrayOK(h', a, s.(off := s.off + delta))
      && Items(h'.mem, a, s.es) == Items(h.mem, a, s.es)[delta..]
      && Confined(h.mem, h'.mem, a, s, 0, 0)
  {
    hide Word, Limit, Inv, ItemsAt, CompactFront, Item;
    CompactHeader(h, a, s, delta);
    CompactKeeps(h, a, delta, s.es);
    CompactItems(h, a, s, delta, CompactFront(h, a, delta, s.es).mem);
    OffsetSum(s.off, delta, s.es);
  }

  lemma OffsetSum(x: nat, y: nat, es: nat)
    ensures x * es + y * es == (x + y) * es
  {
  }

  lemma CompactKeeps(h: Heap, a: nat, delta: nat, es: nat)
    ensures var h' := CompactFront(h, a, delta, es); h'.grants == h.grants && h'.arena == h.arena
  {
    hide Word, PutWord;
  }

  lemma CompactItems(h: Heap, a: nat, s: Shape, delta: nat, m': Mem)
    requires HeapOK(h) && ArrayOK(h, a, s) && a - HEADER != s.buf && delta <= Length(h.mem, a)
    requires forall x: nat | !(a <= x < a + REPR) :: m'(x) == h.mem(x)
    requires ElemPtr(m', a) == ElemPtr(h.mem, a) + delta * s.es && Length(m', a) == Length(h.mem, a) - delta
    ensures Items(m', a, s.es) == Items(h.mem, a, s.es)[delta..]
  {
    hide Word, Limit, Inv, ItemsAt;
    var m, p, n := h.mem, ElemPtr(h.mem, a), Length(h.mem, a);
    ItemsDropped(m, p, s.es, delta, n);
    OwnRegions(h, a, s);
    ElementsInside(h, a, s);
    MulNonNeg(delta, s.es);
    assert (n - delta) * s.es + delta * s.es == n * s.es;
    ItemsSame(m, m', s.buf, BufSize(s), p + delta * s.es, s.es, n - delta);
  }

  /** The compiler's clamp keeps the pointer in the buffer exactly when the elements dropped so far and
      the clamped advance fit it; a compaction past the end can fail this once one has gone before. */
  lemma CompactInsideExactly(h: Heap, a: nat, s: Shape, delta: nat)
    requires HeapOK(h) && ArrayOK(h, a, s) && a - HEADER != s.buf
    ensures var h' := CompactFront(h, a, delta, s.es);
      var cap := Capacity(h.mem, a);
      (ElemPtr(h'.mem, a) + Span(Length(h'.mem, a), s.es) <= s.buf + BufSize(s))
      <==> (delta <= Length(h.mem, a) || s.off + (if delta <= cap then delta else cap) <= s.cap)
  {
    hide Word, Limit, Inv, CompactFront;
    CompactHeader(h, a, s, delta);
    var len, cap := Length(h.mem, a), Capacity(h.mem, a);
    if delta <= len {
      CompactEffect(h, a, s, delta);
      ElementsInside(CompactFront(h, a, delta, s.es), a, s.(off := s.off + delta));
    } else {
      var k: nat := if delta <= cap then delta else cap;
      assert s.off * s.es + k * s.es == (s.off + k) * s.es;
      SpanOrder(s.off + k, s.cap, s.es);
    }
  }

  /** A full array that has been compacted once leaves its buffer when compacted past its capacity. */
  lemma DriftLeaves(h: Heap, a: nat, s: Shape, delta: nat)
    requires HeapOK(h) && ArrayOK(h, a, s) && a - HEADER != s.buf
    requires s.off > 0 && Capacity(h.mem, a) == s.cap && delta >= s.cap
    ensures var h' := CompactFront(h, a, delta, s.es);
      ElemPtr(h'.mem, a) + Span(Length(h'.mem, a), s.es) > s.buf + BufSize(s)
  {
    hide Word, Limit, Inv, CompactFront;
    CompactInsideExactly(h, a, s, delta);
  }

  lemma SpanOrder(x: nat, y: nat, es: nat)
    requires es > 0
    ensures x * es <= y * es <==> x <= y
  {
    if x <= y { MulMono(x, y, es); } else { MulMono(y + 1, x, es); assert (y + 1) * es == y * es + es; }
  }

  // ---- assignment ----

  /** An element whose first |e| bytes are e. */
  function Overwritten(x: Elem, e: Elem): (r: Elem)
    requires |e| <= |x|
    ensures |r| == |x|
  {
    e + x[|e|..]
  }

  /** Storing a register no wider than the stride: it replaces the first bytes of that element, and
      nothing else. */
  lemma AssignEffect(h: Heap, a: nat, s: Shape, i: nat, e: Elem)
    requires HeapOK(h) && ArrayOK(h, a, s) && a - HEADER != s.buf && i < Length(h.mem, a) && |e| <= s.es
    ensures var h' := SetItem(h, a, i, e, s.es);
      var items := Items(h.mem, a, s.es);
      && h'.grants == h.grants && h'.arena == h.arena && ArrayOK(h', a, s)
      && |items[i]| == s.es && Items(h'.mem, a, s.es) == items[i := Overwritten(items[i], e)]
      && Confined(h.mem, h'.mem, a, s, 0, 0)
  {
    hide Word, Limit, Inv, Item, Put;
    var m, p, n := h.mem, ElemPtr(h.mem, a), Length(h.mem, a);
    OwnRegions(h, a, s);
    ElementsInside(h, a, s);
    ItemBound(i, n, s.es);
    MulNonNeg(i, s.es);
    var m' := SetItem(h, a, i, e, s.es).mem;
    HeaderApart(a, s, m, p + i * s.es, e);
    HeaderSame(m, m', a);
    ItemIs(m, p, s.es, i, e);
    forall j | 0 <= j < n && j != i ensures ItemsAt(m', p, s.es, n)[j] == ItemsAt(m, p, s.es, n)[j] {
      OtherItem(m, p, s.es, i, j, e);
    }
    PutOutside(m, p + i * s.es, e);
  }

  lemma ItemIs(m: Mem, p: nat, es: nat, i: nat, e: Elem)
    requires |e| <= es
    ensures |Item(m, p, es, i)| == es
    ensures Item(Put(m, p + i * es, e), p, es, i) == Overwritten(Item(m, p, es, i), e)
  {
  }

  lemma PutOutside(m: Mem, q: nat, e: Elem)
    ensures forall x: nat | !(q <= x < q + |e|) :: Put(m, q, e)(x) == m(x)
  {
  }

  lemma OtherItem(m: Mem, p: nat, es: nat, i: nat, j: nat, e: Elem)
    requires i != j && |e| <= es
    ensures Item(Put(m, p + i * es, e), p, es, j) == Item(m, p, es, j)
  {
    hide Put, Get;
    if i < j { ItemBound(i, j, es); } else { ItemBound(j, i, es); }
    MulNonNeg(i, es);
    MulNonNeg(j, es);
    PutElsewhere(m, p + i * es, e, p + j * es, es);
    GetSame(m, Put(m, p + i * es, e), p + j * es, es);
  }

  /** A null array is left alone, and a null type makes none. */
  lemma NullArray(h: Heap, delta: int, n: int, elems: nat, es: nat, base: nat)
    requires Offered(base, ALIGN) && elems >= 8
    ensures GrowEnd(h, 0, delta, es, base) == Some(h) == Resize(h, 0, n, es, base) && DelEnd(h, 0, delta, es) == h
    ensures NewArray(h, 0, elems, n, base) == Some((h, 0))
  {
    hide BumpAlloc, Word;
  }

  // ---- creation ----

  lemma MemoryEffect(h: Heap, n: nat, es: nat, tag: nat, base: nat)
    requires HeapOK(h) && Usable(h, base, 16 + Span(n, es)) && NewMemory(h, n, es, tag, base).Some?
    ensures var (h', elems) := NewMemory(h, n, es, tag, base).value;
      var size := 16 + Span(n, es);
      && elems > 16 && HeapOK(h') && h'.grants == h.grants + [Grant(elems - 16, size)]
      && Clear(h, elems - 16, size) && elems - 16 + size < Limit()
      && (forall x: nat | !(elems - 16 <= x < elems - 16 + size) :: h'.mem(x) == h.mem(x))
      && (tag < Limit() ==> Word(h'.mem, elems - 16) == tag) && (n < Limit() ==> Word(h'.mem, elems - 8) == n)
  {
    hide Limit, Inv, BytesOf, Clear, Bump, Span, Space, GrantsApart, Word;
    var size := 16 + Span(n, es);
    AllocSafe(h, size, base);
    var (h1, p) := BumpAlloc(h, size, base).value;
    assert Grant(p, size) in h1.grants;
    GrantBound(h1, Grant(p, size));
    TwoWords(h1.mem, p, tag, n);
  }

  lemma TwoWords(m: Mem, p: nat, x: nat, y: nat)
    ensures var m' := PutWord(PutWord(m, p, x), p + 8, y);
      (x < Limit() ==> Word(m', p) == x) && (y < Limit() ==> Word(m', p + 8) == y)
  {
    hide Limit, Word, PutWord;
    if x < Limit() { WordPut(m, p, x); }
    if y < Limit() { WordPut(PutWord(m, p, x), p + 8, y); }
    WordElsewhere(PutWord(m, p, x), p + 8, y, p);
  }

  /** A new array object; a negative length is zero. */
  lemma WrapperEffect(h: Heap, atype: nat, elems: nat, nel: int, base: nat)
    requires HeapOK(h) && atype != 0 && 8 <= elems < Limit() && nel < Limit() && Usable(h, base, HEADER + REPR)
    requires NewArray(h, atype, elems, nel, base).Some?
    ensures var (h', a) := NewArray(h, atype, elems, nel, base).value;
      && a > HEADER && HeapOK(h') && h'.grants == h.grants + [Grant(a - HEADER, HEADER + REPR)]
      && Clear(h, a - HEADER, HEADER + REPR)
      && ElemPtr(h'.mem, a) == elems && MemObj(h'.mem, a) == elems - 8
      && Length(h'.mem, a) == Capacity(h'.mem, a) && (nel >= 0 ==> Length(h'.mem, a) == nel)
      && (nel < 0 ==> Length(h'.mem, a) == 0) && (atype < Limit() ==> Word(h'.mem, a - HEADER) == atype)
      && forall x: nat | !(a - HEADER <= x < a + REPR) :: h'.mem(x) == h.mem(x)
  {
    hide Limit, Inv, Clear, Bump, Space, GrantsApart, Word, PutHeader, PutWord;
    AllocSafe(h, HEADER + REPR, base);
    var (h1, p) := BumpAlloc(h, HEADER + REPR, base).value;
    var n: nat := if nel < 0 then 0 else nel;
    HeaderPut(PutWord(h1.mem, p, atype), p + HEADER, elems, elems - 8, n, n);
    TagAndHeader(h1.mem, p, atype, elems, elems - 8, n);
    if atype < Limit() { TagWord(h1.mem, p, atype, elems, elems - 8, n); }
  }

  /** The type tag in front of a header. */
  lemma TagWord(m: Mem, p: nat, tag: nat, elem: nat, obj: nat, n: nat)
    requires tag < Limit()
    ensures Word(PutHeader(PutWord(m, p, tag), p + HEADER, elem, obj, n, n), p) == tag
  {
    hide BytesOf, PutHeader, Word, Limit;
    var m1 := PutWord(m, p, tag);
    var m2 := PutHeader(m1, p + HEADER, elem, obj, n, n);
    WordPut(m, p, tag);
    forall x: nat | p <= x < p + W ensures m2(x) == m1(x) {
      HeaderElsewhere(m1, p + HEADER, elem, obj, n, n, x);
    }
    WordSame(m1, m2, p);
  }

  lemma TagAndHeader(m: Mem, p: nat, tag: nat, elem: nat, obj: nat, n: nat)
    ensures forall x: nat | !(p <= x < p + HEADER + REPR) ::
      PutHeader(PutWord(m, p, tag), p + HEADER, elem, obj, n, n)(x) == m(x)
  {
    hide BytesOf, PutHeader;
    forall x: nat | !(p <= x < p + HEADER + REPR)
      ensures PutHeader(PutWord(m, p, tag), p + HEADER, elem, obj, n, n)(x) == m(x)
    {
      HeaderElsewhere(PutWord(m, p, tag), p + HEADER, elem, obj, n, n, x);
    }
  }
}

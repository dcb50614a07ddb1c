/** Growable arrays on the byte heap: a four-word header whose element pointer moves, first to a new
    buffer on growth, then forward inside the buffer on front compaction. */
module Arrays {
  import opened Wrappers
  import opened Words
  import opened Arena
  import opened Heap
  import FM = FieldMemory

  /** The bytes of n elements. */
  function Span(n: nat, es: nat): (r: nat)
    ensures r == n * es
  {
    MulNonNeg(n, es);
    n * es
  }

  // ---- the header, and the buffer it points into ----

  const HEADER: nat := 8
  const REPR: nat := 32

  function ElemPtr(m: Mem, a: nat): nat { Word(m, a) }
  function MemObj(m: Mem, a: nat): nat { Word(m, a + 8) }
  function Length(m: Mem, a: nat): nat { Word(m, a + 16) }
  function Capacity(m: Mem, a: nat): nat { Word(m, a + 24) }

  function PutHeader(m: Mem, a: nat, elem: nat, obj: nat, len: nat, cap: nat): Mem {
    PutWord(PutWord(PutWord(PutWord(m, a, elem), a + 8, obj), a + 24, cap), a + 16, len)
  }

  lemma HeaderPut(m: Mem, a: nat, elem: nat, obj: nat, len: nat, cap: nat)
    requires elem < Limit() && obj < Limit() && len < Limit() && cap < Limit()
    ensures var m' := PutHeader(m, a, elem, obj, len, cap);
      ElemPtr(m', a) == elem && MemObj(m', a) == obj && Length(m', a) == len && Capacity(m', a) == cap
  {
    hide Word, PutWord, Limit;
    var m1 := PutWord(m, a, elem);
    var m2 := PutWord(m1, a + 8, obj);
    var m3 := PutWord(m2, a + 24, cap);
    WordPut(m, a, elem);
    WordPut(m1, a + 8, obj);
    WordPut(m2, a + 24, cap);
    WordPut(m3, a + 16, len);
    WordElsewhere(m1, a + 8, obj, a);
    WordElsewhere(m2, a + 24, cap, a);
    WordElsewhere(m2, a + 24, cap, a + 8);
    WordElsewhere(m3, a + 16, len, a);
    WordElsewhere(m3, a + 16, len, a + 8);
    WordElsewhere(m3, a + 16, len, a + 24);
  }

  lemma HeaderElsewhere(m: Mem, a: nat, elem: nat, obj: nat, len: nat, cap: nat, x: nat)
    requires x < a || a + REPR <= x
    ensures PutHeader(m, a, elem, obj, len, cap)(x) == m(x)
  {
    hide BytesOf;
  }

  /** The four header words of an array whose header bytes are the same. */
  lemma HeaderSame(m: Mem, m': Mem, a: nat)
    requires SameOn(m, m', a, REPR)
    ensures ElemPtr(m', a) == ElemPtr(m, a) && MemObj(m', a) == MemObj(m, a)
    ensures Length(m', a) == Length(m, a) && Capacity(m', a) == Capacity(m, a)
  {
    hide Word;
    WordSame(m, m', a);
    WordSame(m, m', a + 8);
    WordSame(m, m', a + 16);
    WordSame(m, m', a + 24);
  }

  // ---- elements ----

  type Elem = seq<Byte>

  function Item(m: Mem, p: nat, es: nat, i: nat): Elem { Get(m, p + i * es, es) }

  function ItemsAt(m: Mem, p: nat, es: nat, n: nat): (r: seq<Elem>)
    ensures |r| == n
  {
    seq(n, i requires 0 <= i < n => Item(m, p, es, i))
  }

  /** What a program sees of the array. */
  function Items(m: Mem, a: nat, es: nat): (r: seq<Elem>)
    ensures |r| == Length(m, a)
  {
    ItemsAt(m, ElemPtr(m, a), es, Length(m, a))
  }

  /** n bytes, moved from p to q. */
  ghost predicate Moved(m: Mem, p: nat, m': Mem, q: nat, n: nat) {
    Get(m', q, n) == Get(m, p, n)
  }

  lemma ItemBound(i: nat, n: nat, es: nat)
    requires i < n
    ensures i * es + es <= n * es
  {
    FM.StrideMono(i, n, es);
  }

  /** An element is a slice of the array's bytes. */
  lemma GetSlice(m: Mem, p: nat, n: nat, k: nat, l: nat)
    requires k + l <= n
    ensures Get(m, p, n)[k..k + l] == Get(m, p + k, l)
  {
  }

  lemma ItemMoved(m: Mem, p: nat, m': Mem, q: nat, n: nat, es: nat, i: nat)
    requires Moved(m, p, m', q, n * es) && i < n
    ensures Item(m', q, es, i) == Item(m, p, es, i)
  {
    hide Get;
    ItemBound(i, n, es);
    GetSlice(m, p, n * es, i * es, es);
    GetSlice(m', q, n * es, i * es, es);
  }

  lemma ItemsMoved(m: Mem, p: nat, m': Mem, q: nat, n: nat, es: nat)
    requires Moved(m, p, m', q, n * es)
    ensures ItemsAt(m', q, es, n) == ItemsAt(m, p, es, n)
  {
    hide Item, Moved;
    forall i | 0 <= i < n ensures Item(m', q, es, i) == Item(m, p, es, i) { ItemMoved(m, p, m', q, n, es, i); }
  }

  lemma ItemsPrefix(m: Mem, p: nat, es: nat, k: nat, n: nat)
    requires k <= n
    ensures ItemsAt(m, p, es, n)[..k] == ItemsAt(m, p, es, k)
  {
    hide Item;
  }

  /** Elements from d on, seen from a pointer advanced by d. */
  lemma ItemsDropped(m: Mem, p: nat, es: nat, d: nat, n: nat)
    requires d <= n
    ensures ItemsAt(m, p + d * es, es, n - d) == ItemsAt(m, p, es, n)[d..]
  {
    hide Item;
    var all, rest := ItemsAt(m, p, es, n), ItemsAt(m, p + d * es, es, n - d);
    forall i | 0 <= i < n - d ensures rest[i] == all[d..][i] { ItemAdvanced(m, p, es, d, i); }
  }

  lemma ItemAdvanced(m: Mem, p: nat, es: nat, d: nat, i: nat)
    ensures Item(m, p + d * es, es, i) == Item(m, p, es, d + i)
  {
    hide Get;
    assert (d + i) * es == d * es + i * es;
  }

  // ---- the invariant of one array ----

  /** Where an array lives: stride, the grant of its buffer, the elements that buffer was allocated for,
      and how many elements have been dropped from the front. */
  datatype Shape = Shape(es: nat, buf: nat, cap: nat, off: nat)

  function BufSize(s: Shape): nat { 16 + Span(s.cap, s.es) }

  ghost predicate ArrayOK(h: Heap, a: nat, s: Shape) {
    && a >= HEADER && s.es > 0
    && Grant(a - HEADER, HEADER + REPR) in h.grants
    && Grant(s.buf, BufSize(s)) in h.grants
    && ElemPtr(h.mem, a) == s.buf + 16 + s.off * s.es
    && MemObj(h.mem, a) == s.buf + 8
    && s.off + Length(h.mem, a) <= s.cap
    && Length(h.mem, a) <= Capacity(h.mem, a) <= s.cap
  }

  /** The elements lie inside the live buffer. */
  lemma ElementsInside(h: Heap, a: nat, s: Shape)
    requires ArrayOK(h, a, s)
    ensures s.buf + 16 <= ElemPtr(h.mem, a)
    ensures ElemPtr(h.mem, a) + Length(h.mem, a) * s.es <= s.buf + BufSize(s)
  {
    hide Word;
    var n := Length(h.mem, a);
    MulMono(s.off + n, s.cap, s.es);
    assert (s.off + n) * s.es == s.off * s.es + n * s.es;
    MulNonNeg(s.off, s.es);
  }

  /** Bytes of an array that are the same leave it and its elements as they were. */
  lemma ArrayUntouched(h: Heap, h': Heap, a: nat, s: Shape)
    requires ArrayOK(h, a, s) && (forall g | g in h.grants :: g in h'.grants)
    requires SameOn(h.mem, h'.mem, a, REPR) && SameOn(h.mem, h'.mem, s.buf, BufSize(s))
    ensures ArrayOK(h', a, s) && Items(h'.mem, a, s.es) == Items(h.mem, a, s.es)
  {
    hide Word, Item, SameOn;
    HeaderSame(h.mem, h'.mem, a);
    ElementsInside(h, a, s);
    ItemsSame(h.mem, h'.mem, s.buf, BufSize(s), ElemPtr(h.mem, a), s.es, Length(h.mem, a));
  }

  lemma ItemsSame(m: Mem, m': Mem, buf: nat, size: nat, p: nat, es: nat, n: nat)
    requires SameOn(m, m', buf, size) && buf <= p && p + n * es <= buf + size
    ensures ItemsAt(m', p, es, n) == ItemsAt(m, p, es, n)
  {
    hide Item, Get;
    SameInside(m, m', buf, size, p, n * es);
    GetSame(m, m', p, n * es);
    ItemsMoved(m, p, m', p, n, es);
  }
}

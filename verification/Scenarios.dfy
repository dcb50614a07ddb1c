/** Short runs from the empty heap that reach what the exact conditions on arrays describe. */
module Scenarios {
  import opened Wrappers
  import opened Words
  import opened Arena
  import opened Heap
  import opened Arrays
  import opened ArrayOps
  import opened ArrayRuns
  import opened ResizeStride
  import FM = FieldMemory

  /** Where the system allocator places the arena's first block, and where it would place another. */
  const FIRST: nat := 65536
  const OTHER: nat := 262144

  function Start(m: Mem): World {
    World(Heap(m, EMPTY, []), map[])
  }

  lemma RoomBelow()
    ensures OTHER + 2 * DEFAULT_BLOCK_SIZE < Space() && 2 * Space() == Limit()
  {
    SpaceTwice();
    hide Limit;
    Pow2Mono(20, 62);
    assert Pow2(10) == 1024;
    Pow2Add(10, 10);
  }

  /** A heap whose only block is the first, used up to current. */
  predicate OneBlock(h: Heap, current: nat) {
    && h.arena.blocks == [Block(FIRST, DEFAULT_BLOCK_SIZE, ALIGN)]
    && h.arena.current == current && current + h.arena.remaining == FIRST + DEFAULT_BLOCK_SIZE
  }

  /** An allocation in that block goes to the next multiple of sixteen. */
  lemma NextGrant(h: Heap, current: nat, size: nat, base: nat, pad: nat)
    requires OneBlock(h, current) && Offered(base, ALIGN) && pad < ALIGN && (current + pad) % ALIGN == 0
    requires current + pad + size <= FIRST + DEFAULT_BLOCK_SIZE
    ensures BumpAlloc(h, size, base).Some?
    ensures var (h', p) := BumpAlloc(h, size, base).value;
      p == current + pad && OneBlock(h', p + size) && h'.mem == h.mem
  {
  }

  lemma FirstGrant(h: Heap, size: nat)
    requires h.arena == EMPTY && 0 < size <= DEFAULT_BLOCK_SIZE
    ensures BumpAlloc(h, size, FIRST).Some?
    ensures var (h', p) := BumpAlloc(h, size, FIRST).value; p == FIRST && OneBlock(h', p + size) && h'.mem == h.mem
  {
    var s := Arena.State([Block(FIRST, DEFAULT_BLOCK_SIZE, ALIGN)], FIRST, DEFAULT_BLOCK_SIZE, 0);
    assert Padding(0, ALIGN) == 0 && Padding(FIRST, ALIGN) == 0;
    assert [] + [Block(FIRST, DEFAULT_BLOCK_SIZE, ALIGN)] == s.blocks;
    assert Bump(EMPTY, size, ALIGN, FIRST) == Bump(s, size, ALIGN, FIRST);
  }

  lemma OtherUsable(h: Heap, current: nat, size: nat)
    requires OneBlock(h, current) && size <= DEFAULT_BLOCK_SIZE
    ensures Usable(h, OTHER, size)
  {
    RoomBelow();
    hide Space;
  }

  lemma FirstUsable(h: Heap, size: nat)
    requires h.arena == EMPTY && size <= DEFAULT_BLOCK_SIZE
    ensures Usable(h, FIRST, size)
  {
    RoomBelow();
    hide Space;
  }

  /** Creating an array whose Memory object is granted at p, and its header pad bytes after it. */
  lemma Created(w: World, op: Op, p: nat, pad: nat)
    requires WorldOK(w) && op.New? && op.es > 0 && 0 < op.tag < Limit() && op.count < Limit() && op.base' == OTHER
    requires var size := 16 + Span(op.count, op.es);
      && Usable(w.h, op.base, size) && BumpAlloc(w.h, size, op.base).Some?
      && BumpAlloc(w.h, size, op.base).value.1 == p > 0 && OneBlock(BumpAlloc(w.h, size, op.base).value.0, p + size)
      && pad < ALIGN && (p + size + pad) % ALIGN == 0
      && p + size + pad + HEADER + REPR <= FIRST + DEFAULT_BLOCK_SIZE
    ensures var a := p + 16 + Span(op.count, op.es) + pad + HEADER;
      && ArrayRuns.Allowed(w, op) && Do(w, op).Some?
      && var w' := Do(w, op).value;
        && WorldOK(w') && w'.arrays == w.arrays[a := Shape(op.es, p, op.count, 0)] && OneBlock(w'.h, a + REPR)
        && Length(w'.h.mem, a) == op.count == Capacity(w'.h.mem, a) && Word(w'.h.mem, a - HEADER) == op.tag
        && forall b | b in w.arrays :: b in View(w) && b in View(w') && View(w')[b] == View(w)[b]
  {
    hide WorldOK, Bump, FreshBlock, Word, PutWord, PutHeader, Limit, Space, OnSequences, Span, View;
    var size := 16 + Span(op.count, op.es);
    var (h1, elems) := NewMemory(w.h, op.count, op.es, op.memTag, op.base).value;
    OtherUsable(h1, p + size, HEADER + REPR);
    NextGrant(h1, p + size, HEADER + REPR, OTHER, pad);
    StepRefines(w, op);
    RoomBelow();
    var q := p + size + pad;
    ViewKept(w, op);
    HeaderPut(PutWord(h1.mem, q, op.tag), q + HEADER, elems, elems - 8, op.count, op.count);
    TagPut(h1.mem, q, op.tag, elems, op.count);
  }

  lemma TagPut(m: Mem, q: nat, tag: nat, elems: nat, n: nat)
    requires tag < Limit() && elems >= 8
    ensures Word(PutHeader(PutWord(m, q, tag), q + HEADER, elems, elems - 8, n, n), q) == tag
  {
    hide Word, Limit, PutHeader, PutWord;
    var m1 := PutWord(m, q, tag);
    WordPut(m, q, tag);
    forall x: nat | q <= x < q + W ensures PutHeader(m1, q + HEADER, elems, elems - 8, n, n)(x) == m1(x) {
      HeaderElsewhere(m1, q + HEADER, elems, elems - 8, n, n, x);
    }
    WordSame(m1, PutHeader(m1, q + HEADER, elems, elems - 8, n, n), q);
  }

  lemma ViewKept(w: World, op: Op)
    requires ArrayRuns.Allowed(w, op) && op.New? && Do(w, op).Some?
    requires OnSequences(View(w), op, View(Do(w, op).value))
    ensures var w' := Do(w, op).value;
      forall b | b in w.arrays :: b in View(w) && b in View(w') && View(w')[b] == View(w)[b]
  {
    hide Items, Do;
  }

  // ---- an array that drifts out of its buffer ----

  const DRIFTER: nat := FIRST + 40

  /** One element, dropped from the front. */
  function DriftOps(): seq<Op> {
    [New(1, 8, 1, 1, FIRST, OTHER), Compact(DRIFTER, 1)]
  }

  lemma StartOK(m: Mem)
    ensures WorldOK(Start(m)) && View(Start(m)) == map[]
  {
    EmptyOK(Start(m));
  }

  lemma DriftRun(m: Mem) returns (ws: seq<World>)
    ensures |ws| == 3 && IsRun(ws, DriftOps()) && ws[0] == Start(m)
    ensures DRIFTER in ws[2].arrays && ws[2].arrays[DRIFTER] == Shape(8, FIRST, 1, 1)
    ensures Capacity(ws[2].h.mem, DRIFTER) == 1
  {
    hide WorldOK, Usable, Word, Limit, Space, View, CompactFront, BumpAlloc, NewMemory, NewArray;
    var w0 := Start(m);
    StartOK(m);
    RoomBelow();
    FirstUsable(w0.h, 24);
    FirstGrant(w0.h, 24);
    Created(w0, DriftOps()[0], FIRST, 8);
    var w1 := Do(w0, DriftOps()[0]).value;
    assert ArrayRuns.Allowed(w1, DriftOps()[1]);
    var w2 := Do(w1, DriftOps()[1]).value;
    OneCompacted(w1);
    ws := [w0, w1, w2];
  }

  lemma OneCompacted(w: World)
    requires WorldOK(w) && DRIFTER in w.arrays && Length(w.h.mem, DRIFTER) == 1 == Capacity(w.h.mem, DRIFTER)
    ensures Capacity(CompactFront(w.h, DRIFTER, 1, w.arrays[DRIFTER].es).mem, DRIFTER) == 1
  {
    hide HeapOK, Word, CompactFront, ArrayOK;
    CompactHeader(w.h, DRIFTER, w.arrays[DRIFTER], 1);
  }

  /** A new array of one word, compacted once, is empty; compacting it again by one leaves its buffer. */
  lemma DriftReached(m: Mem) returns (ws: seq<World>)
    ensures |ws| == 3 && IsRun(ws, DriftOps()) && ws[0] == Start(m) && DRIFTER in ws[2].arrays
    ensures var w := ws[2];
      var h', s := CompactFront(w.h, DRIFTER, 1, 8), w.arrays[DRIFTER];
      ElemPtr(h'.mem, DRIFTER) + Span(Length(h'.mem, DRIFTER), 8) > s.buf + BufSize(s)
  {
    hide HeapOK, Word, CompactFront, ArrayOK, IsRun, View;
    ws := DriftRun(m);
    RunRefines(ws, DriftOps(), 2);
    DriftLeaves(ws[2].h, DRIFTER, ws[2].arrays[DRIFTER], 1);
  }

  // ---- a resize! that damages another array ----

  const BYTES: nat := FIRST + 136
  const WORDS: nat := FIRST + 216

  /** A hundred bytes, and one word, whose first byte is set. */
  function ResizeOps(): seq<Op> {
    [New(100, 1, 1, 1, FIRST, OTHER), New(1, 8, 1, 1, OTHER, OTHER), Assign(WORDS, 0, [1])]
  }

  /** The two arrays, as the run leaves them. */
  ghost predicate TwoArrays(w: World) {
    && w.arrays == map[BYTES := Shape(1, FIRST, 100, 0), WORDS := Shape(8, FIRST + 176, 1, 0)]
    && |View(w)[BYTES]| == 100 && |View(w)[WORDS]| == 1 && |View(w)[WORDS][0]| > 0 && View(w)[WORDS][0][0] == 1
  }

  lemma ResizeRun(m: Mem) returns (ws: seq<World>)
    ensures |ws| == 4 && IsRun(ws, ResizeOps()) && ws[0] == Start(m) && TwoArrays(ws[3])
  {
    hide WorldOK, Usable, Word, Limit, Space, View, SetItem, BumpAlloc, NewMemory, NewArray;
    var w0 := Start(m);
    StartOK(m);
    RoomBelow();
    FirstUsable(w0.h, 116);
    FirstGrant(w0.h, 116);
    Created(w0, ResizeOps()[0], FIRST, 12);
    var w1 := Do(w0, ResizeOps()[0]).value;
    OtherUsable(w1.h, BYTES + REPR, 24);
    NextGrant(w1.h, BYTES + REPR, 24, OTHER, 8);
    Created(w1, ResizeOps()[1], FIRST + 176, 8);
    var w2 := Do(w1, ResizeOps()[1]).value;
    assert ArrayRuns.Allowed(w2, ResizeOps()[2]);
    var w3 := Do(w2, ResizeOps()[2]).value;
    ViewAt(w1, BYTES);
    ViewAt(w2, WORDS);
    AssignRefines(w2, WORDS, 0, [1]);
    ws := [w0, w1, w2, w3];
  }

  /** The second array's header and element, and the first one's header, lie in what is zeroed. */
  lemma ResizeZeroes(w: World)
    requires WorldOK(w) && TwoArrays(w)
    ensures Length(w.h.mem, BYTES) == 100 && ElemPtr(w.h.mem, WORDS) == FIRST + 192 && w.h.mem(FIRST + 192) == 1
    ensures Resize(w.h, BYTES, 10, CALL_STRIDE, OTHER).Some?
    ensures var m' := Resize(w.h, BYTES, 10, CALL_STRIDE, OTHER).value.mem;
      m'(FIRST + 192) == 0 && Length(m', WORDS) == 0
  {
    hide HeapOK, Word, PutWord, View, DelMem;
    ViewAt(w, BYTES);
    ViewAt(w, WORDS);
    ShrinkIs(w.h, BYTES, w.arrays[BYTES], 10, OTHER);
    ItemByte(w.h.mem, FIRST + 192, 8, 1, 0);
    ZeroedHeap(w.h.mem);
  }

  lemma ZeroedHeap(m: Mem)
    requires ElemPtr(m, BYTES) == FIRST + 16
    ensures var m' := DelMem(m, BYTES, 10, 90, CALL_STRIDE); m'(FIRST + 192) == 0 && Length(m', WORDS) == 0
  {
    hide Word, BytesOf;
    var m1 := Put(m, FIRST + 96, Zeros(720));
    var m2 := PutWord(m1, BYTES + 16, 10);
    assert SameOn(m1, m2, BYTES + 8, W);
    ZeroWord(m2, BYTES + 8);
    ZeroWord(m2, WORDS + 16);
  }

  lemma ZeroWord(m: Mem, a: nat)
    requires forall x: nat | a <= x < a + W :: m(x) == 0
    ensures Word(m, a) == 0
  {
    FM.LoadZero(Get(m, a, W), 0, W);
  }

  /** resize! of the hundred bytes to ten zeroes the other array's element and empties it. */
  lemma ResizeDamages(m: Mem) returns (ws: seq<World>)
    ensures |ws| == 4 && IsRun(ws, ResizeOps()) && ws[0] == Start(m) && TwoArrays(ws[3])
    ensures var w := ws[3];
      && Resize(w.h, BYTES, 10, CALL_STRIDE, OTHER).Some?
      && var m' := Resize(w.h, BYTES, 10, CALL_STRIDE, OTHER).value.mem;
        && w.h.mem(ElemPtr(w.h.mem, WORDS)) == 1 && m'(ElemPtr(w.h.mem, WORDS)) == 0
        && Items(m', WORDS, 8) == []
  {
    hide HeapOK, Word, Resize, IsRun, TwoArrays;
    ws := ResizeRun(m);
    RunRefines(ws, ResizeOps(), 3);
    ResizeZeroes(ws[3]);
  }

  // ---- an element store that damages the next object ----

  const SIXTEEN: nat := FIRST + 40

  function SixteenOps(): seq<Op> {
    [New(16, 1, 1, 1, FIRST, OTHER)]
  }

  lemma SixteenRun(m: Mem) returns (ws: seq<World>)
    ensures |ws| == 2 && IsRun(ws, SixteenOps()) && ws[0] == Start(m)
    ensures ws[1].arrays == map[SIXTEEN := Shape(1, FIRST, 16, 0)] && Length(ws[1].h.mem, SIXTEEN) == 16
    ensures Word(ws[1].h.mem, SIXTEEN - HEADER) == 1
  {
    hide WorldOK, Usable, Word, Limit, Space, View, BumpAlloc, NewMemory, NewArray;
    var w0 := Start(m);
    StartOK(m);
    RoomBelow();
    FirstUsable(w0.h, 32);
    FirstGrant(w0.h, 32);
    Created(w0, SixteenOps()[0], FIRST, 0);
    ws := [w0, Do(w0, SixteenOps()[0]).value];
  }

  /** Assigning the last of sixteen bytes through a four-byte register clears the type tag of the object
      behind the buffer, which here is the array's own. */
  lemma LastByteSpills(m: Mem) returns (ws: seq<World>)
    ensures |ws| == 2 && IsRun(ws, SixteenOps()) && ws[0] == Start(m) && SIXTEEN in ws[1].arrays
    ensures var h := ws[1].h;
      var h' := SetItem(h, SIXTEEN, 15, [0, 0, 0, 0], 1);
      && Grant(SIXTEEN - HEADER, HEADER + REPR) in h.grants
      && Word(h.mem, SIXTEEN - HEADER) == 1 && Word(h'.mem, SIXTEEN - HEADER) != 1
  {
    hide HeapOK, Word, IsRun, BytesOf;
    ws := SixteenRun(m);
    RunRefines(ws, SixteenOps(), 1);
    var h := ws[1].h;
    assert ArrayOK(h, SIXTEEN, ws[1].arrays[SIXTEEN]);
    var h' := SetItem(h, SIXTEEN, 15, [0, 0, 0, 0], 1);
    assert h'.mem(SIXTEEN - HEADER) == 0;
    LowByteZero(h'.mem, SIXTEEN - HEADER);
  }

  /** A word whose lowest byte is zero is even. */
  lemma LowByteZero(m: Mem, a: nat)
    requires m(a) == 0
    ensures Word(m, a) != 1
  {
    var bs := Get(m, a, W);
    assert bs[0] == 0;
    assert FM.Load(bs, 0, 8) == bs[0] + 256 * FM.Load(bs, 1, 7);
  }
}

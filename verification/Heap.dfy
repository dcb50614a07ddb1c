/** The runtime heap: byte-addressed memory, and the arena that hands out regions of it. */
module Heap {
  import opened Wrappers
  import opened Words
  import opened Arena
  import FM = FieldMemory

  type Byte = FM.Byte

  /** Memory is defined everywhere; what has not been written is arbitrary. */
  type Mem = nat -> Byte

  // ---- bytes ----

  function Get(m: Mem, a: nat, n: nat): (r: seq<Byte>)
    ensures |r| == n
  {
    seq(n, i requires 0 <= i < n => m(a + i))
  }

  function Put(m: Mem, a: nat, bs: seq<Byte>): Mem {
    (i: nat) => if a <= i < a + |bs| then bs[i - a] else m(i)
  }

  function BytesOf(v: nat, n: nat): (r: seq<Byte>)
    ensures |r| == n
  {
    seq(n, i requires 0 <= i < n => FM.ByteOf(v, i))
  }

  function Value(bs: seq<Byte>): nat { FM.Load(bs, 0, |bs|) }

  /** m' agrees with m on the n bytes at a. */
  ghost predicate SameOn(m: Mem, m': Mem, a: nat, n: nat) {
    forall i: nat | a <= i < a + n :: m'(i) == m(i)
  }

  lemma GetSame(m: Mem, m': Mem, a: nat, n: nat)
    requires SameOn(m, m', a, n)
    ensures Get(m', a, n) == Get(m, a, n)
  {
  }

  lemma GetPut(m: Mem, a: nat, bs: seq<Byte>)
    ensures Get(Put(m, a, bs), a, |bs|) == bs
  {
  }

  lemma PutElsewhere(m: Mem, a: nat, bs: seq<Byte>, b: nat, n: nat)
    requires b + n <= a || a + |bs| <= b
    ensures SameOn(m, Put(m, a, bs), b, n)
  {
  }

  lemma SameTrans(m0: Mem, m1: Mem, m2: Mem, a: nat, n: nat)
    requires SameOn(m0, m1, a, n) && SameOn(m1, m2, a, n)
    ensures SameOn(m0, m2, a, n)
  {
  }

  lemma SameInside(m: Mem, m': Mem, a: nat, n: nat, b: nat, k: nat)
    requires SameOn(m, m', a, n) && a <= b && b + k <= a + n
    ensures SameOn(m, m', b, k)
  {
  }

  // ---- words ----

  const W: nat := 8

  /** Addresses and lengths stay below the sign bit. */
  function Limit(): (r: int)
    ensures r > 0
  {
    Pow2(8 * W - 1)
  }

  /** User addresses: well below Limit, so that sums of two of them are too. */
  function Space(): (r: int)
    ensures r > 0
  {
    Pow2(8 * W - 2)
  }

  lemma SpaceTwice()
    ensures 2 * Space() == Limit()
  {
  }

  function Word(m: Mem, a: nat): nat { Value(Get(m, a, W)) }

  function PutWord(m: Mem, a: nat, v: nat): Mem { Put(m, a, BytesOf(v, W)) }

  lemma BytesValue(v: nat, n: nat)
    requires v < Pow2(8 * n)
    ensures Value(BytesOf(v, n)) == v
  {
    hide Pow2, FM.ByteOf;
    FM.LoadBytes(BytesOf(v, n), 0, n, v);
    ModSmall(v, Pow2(8 * n));
  }

  lemma WordPut(m: Mem, a: nat, v: nat)
    requires v < Limit()
    ensures Word(PutWord(m, a, v), a) == v
  {
    hide Value, BytesOf, Get, Put;
    LimitFits(v);
    GetPut(m, a, BytesOf(v, W));
    BytesValue(v, W);
  }

  lemma LimitFits(v: nat)
    requires v < Limit()
    ensures v < Pow2(8 * W)
  {
    hide Pow2;
    Pow2Mono(8 * W - 1, 8 * W);
  }

  lemma WordSame(m: Mem, m': Mem, a: nat)
    requires SameOn(m, m', a, W)
    ensures Word(m', a) == Word(m, a)
  {
    hide Value, Get;
    GetSame(m, m', a, W);
  }

  /** A word stored elsewhere. */
  lemma WordElsewhere(m: Mem, a: nat, v: nat, b: nat)
    requires b + W <= a || a + W <= b
    ensures Word(PutWord(m, a, v), b) == Word(m, b)
  {
    hide Word, BytesOf, Put, SameOn;
    PutElsewhere(m, a, BytesOf(v, W), b, W);
    WordSame(m, PutWord(m, a, v), b);
  }

  // ---- the heap ----

  datatype Heap = Heap(mem: Mem, arena: State, grants: seq<Grant>)

  const ALIGN: nat := 16

  /** An address the system allocator may offer for a block. */
  ghost predicate Usable(h: Heap, base: nat, size: nat) {
    Offered(base, ALIGN) && FreshBlock(h.arena, base, size) && base + Max(DEFAULT_BLOCK_SIZE, size) < Space()
  }

  /** A request for no bytes grants nothing. */
  function Granted(grants: seq<Grant>, p: nat, size: nat): seq<Grant> {
    if size == 0 then grants else grants + [Grant(p, size)]
  }

  function BumpAlloc(h: Heap, size: nat, base: nat): Option<(Heap, nat)>
    requires Offered(base, ALIGN)
  {
    match Bump(h.arena, size, ALIGN, base)
    case None => None
    case Some((s, p)) => Some((Heap(h.mem, s, Granted(h.grants, p, size)), p))
  }

  ghost predicate HeapOK(h: Heap) {
    && Inv(h.arena, h.grants)
    && forall i | 0 <= i < |h.arena.blocks| ::
        h.arena.blocks[i].base + h.arena.blocks[i].cap < Space() && h.arena.blocks[i].align == RESET_ALIGN
  }

  predicate Clear(h: Heap, a: nat, n: nat) {
    forall g | g in h.grants :: Arena.Apart(g.addr, g.size, a, n)
  }

  /** A successful allocation is a grant of its own. */
  lemma AllocSafe(h: Heap, size: nat, base: nat)
    requires HeapOK(h) && size > 0 && Usable(h, base, size) && BumpAlloc(h, size, base).Some?
    ensures var (h', p) := BumpAlloc(h, size, base).value;
      && HeapOK(h') && h'.mem == h.mem && h'.grants == h.grants + [Grant(p, size)]
      && p > 0 && p % ALIGN == 0 && Clear(h, p, size)
  {
    hide Inv, Space, Bump, GrantsApart;
    BumpSafe(h.arena, h.grants, size, ALIGN, base);
    OneBlockAtMost(h.arena, size, ALIGN, base);
    var (h', p) := BumpAlloc(h, size, base).value;
    LastApart(h'.arena, h.grants, Grant(p, size));
  }

  lemma AllocEmpty(h: Heap, base: nat)
    requires HeapOK(h) && Usable(h, base, 0) && BumpAlloc(h, 0, base).Some?
    ensures var (h', p) := BumpAlloc(h, 0, base).value;
      HeapOK(h') && h'.mem == h.mem && h'.grants == h.grants && p < Space()
  {
    hide Inv, Space, Bump;
    BumpEmpty(h.arena, h.grants, ALIGN, base);
    OneBlockAtMost(h.arena, 0, ALIGN, base);
    EmptyPlace(h.arena, base);
    BumpBound(BumpAlloc(h, 0, base).value.0);
  }

  lemma EmptyPlace(s: State, base: nat)
    requires Offered(base, ALIGN) && Bump(s, 0, ALIGN, base).Some?
    ensures var (s', p) := Bump(s, 0, ALIGN, base).value; p == s'.current
  {
  }

  lemma BumpBound(h: Heap)
    requires HeapOK(h)
    ensures h.arena.current < Space()
  {
    hide Space, GrantsApart, BlocksApart;
  }

  lemma LastApart(s: State, grants: seq<Grant>, g: Grant)
    requires Inv(s, grants + [g])
    ensures forall h | h in grants :: Arena.Apart(h.addr, h.size, g.addr, g.size)
  {
    var all := grants + [g];
    forall h | h in grants ensures Arena.Apart(h.addr, h.size, g.addr, g.size) {
      var i :| 0 <= i < |grants| && grants[i] == h;
      assert all[i] == h && all[|grants|] == g;
    }
  }

  /** Two grants at different addresses do not overlap. */
  lemma GrantsDisjoint(h: Heap, g: Grant, k: Grant)
    requires HeapOK(h) && g in h.grants && k in h.grants && g.addr != k.addr
    ensures Arena.Apart(g.addr, g.size, k.addr, k.size)
  {
    var i :| 0 <= i < |h.grants| && h.grants[i] == g;
    var j :| 0 <= j < |h.grants| && h.grants[j] == k;
    if i < j { assert Arena.Apart(h.grants[i].addr, h.grants[i].size, h.grants[j].addr, h.grants[j].size); }
    else { assert Arena.Apart(h.grants[j].addr, h.grants[j].size, h.grants[i].addr, h.grants[i].size); }
  }

  lemma GrantBound(h: Heap, g: Grant)
    requires HeapOK(h) && g in h.grants
    ensures 0 < g.addr && g.size > 0 && g.addr + g.size < Space() && 2 * Space() == Limit()
  {
    SpaceTwice();
    hide Limit, Space;
    var k :| 0 <= k < |h.grants| && h.grants[k] == g;
    assert Placed(h.arena, h.grants[k]);
  }

  /** A reset gives every block back under the layout it was allocated with. */
  lemma FreesAsAllocated(h: Heap)
    requires HeapOK(h)
    ensures Reset(h.arena).1 == h.arena.blocks
  {
    hide Space;
    ResetFrees(h.arena, h.grants);
  }

  // ---- what lasts ----

  /** Whatever was granted still is, with the same bytes. */
  ghost predicate Keeps(h: Heap, h': Heap) {
    forall g | g in h.grants :: Intact(h, h', g)
  }

  ghost predicate Intact(h: Heap, h': Heap, g: Grant) {
    g in h'.grants && SameOn(h.mem, h'.mem, g.addr, g.size)
  }

  /** h' is reached from h by allocations, and by writing what they granted. */
  ghost predicate Extends(h: Heap, h': Heap) {
    HeapOK(h') && h.grants <= h'.grants && Keeps(h, h')
  }

  /** h' without what was granted before it was h. */
  function Since(h: Heap, h': Heap): Heap
    requires h.grants <= h'.grants
  {
    h'.(grants := h'.grants[|h.grants|..])
  }

  lemma KeepsTrans(h0: Heap, h1: Heap, h2: Heap)
    requires Keeps(h0, h1) && Keeps(h1, h2)
    ensures Keeps(h0, h2)
  {
    forall g | g in h0.grants ensures Intact(h0, h2, g) { assert Intact(h0, h1, g) && Intact(h1, h2, g); }
  }

  lemma SinceKeeps(h: Heap, h': Heap)
    requires h.grants <= h'.grants
    ensures Keeps(Since(h, h'), h')
  {
  }

  /** What was new stays new. */
  lemma SinceGrows(h0: Heap, h1: Heap, h2: Heap)
    requires h0.grants <= h1.grants && Extends(h1, h2)
    ensures Keeps(Since(h0, h1), Since(h0, h2)) && Keeps(Since(h1, h2), Since(h0, h2))
  {
    hide HeapOK, SameOn;
    forall g | g in Since(h0, h1).grants ensures Intact(Since(h0, h1), Since(h0, h2), g) {
      assert Intact(h1, h2, g);
      var i :| |h0.grants| <= i < |h1.grants| && h1.grants[i] == g;
      assert Since(h0, h2).grants[i - |h0.grants|] == g;
    }
    forall g | g in Since(h1, h2).grants ensures Intact(Since(h1, h2), Since(h0, h2), g) {
      var i :| |h1.grants| <= i < |h2.grants| && h2.grants[i] == g;
      assert Since(h0, h2).grants[i - |h0.grants|] == g;
      assert SameOn(h2.mem, h2.mem, g.addr, g.size) by { Reflexive(h2.mem, g.addr, g.size); }
    }
  }

  lemma Reflexive(m: Mem, a: nat, n: nat)
    ensures SameOn(m, m, a, n)
  {
  }

  lemma ExtendsTrans(h0: Heap, h1: Heap, h2: Heap)
    requires Extends(h0, h1) && Extends(h1, h2)
    ensures Extends(h0, h2) && h0.grants <= h1.grants <= h2.grants
    ensures Keeps(Since(h0, h1), Since(h0, h2)) && Keeps(Since(h1, h2), Since(h0, h2))
  {
    hide HeapOK, Keeps;
    KeepsTrans(h0, h1, h2);
    SinceGrows(h0, h1, h2);
  }

  lemma ExtendsOK(h: Heap, h': Heap)
    requires Extends(h, h')
    ensures HeapOK(h') && h.grants <= h'.grants && Keeps(h, h')
  {
    hide HeapOK, Keeps;
  }

  lemma ExtendsSame(h: Heap)
    requires HeapOK(h)
    ensures Extends(h, h)
  {
    hide HeapOK;
  }

  /** New grants start where no old one does. */
  lemma NewElsewhere(h: Heap, h': Heap, g: Grant, k: Grant)
    requires Extends(h, h') && g in h.grants && k in Since(h, h').grants
    ensures g.addr != k.addr
  {
    hide Keeps;
    var i :| 0 <= i < |h.grants| && h.grants[i] == g;
    var j :| |h.grants| <= j < |h'.grants| && h'.grants[j] == k;
    assert h'.grants[i] == g;
    assert Arena.Apart(h'.grants[i].addr, h'.grants[i].size, h'.grants[j].addr, h'.grants[j].size);
  }

  // ---- a live block ----

  /** p points into a block that has not been freed. */
  ghost predicate Live(h: Heap, p: nat) {
    exists i :: 0 <= i < |h.arena.blocks|
      && h.arena.blocks[i].base <= p < h.arena.blocks[i].base + h.arena.blocks[i].cap
  }

  lemma GrantLive(h: Heap, g: Grant, p: nat)
    requires HeapOK(h) && g in h.grants && g.addr <= p < g.addr + g.size
    ensures Live(h, p)
  {
    hide Space;
    var k :| 0 <= k < |h.grants| && h.grants[k] == g;
    assert Placed(h.arena, h.grants[k]);
    var i :| 0 <= i < |h.arena.blocks| && Within(g, h.arena.blocks[i]);
  }
}

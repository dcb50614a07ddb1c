/** The bump arena.  The system allocator is a parameter: bump is given the address a fresh block would
    have, should it need one. */
module Arena {
  import opened Wrappers
  import opened Words

  const DEFAULT_BLOCK_SIZE: nat := 65536
  const RESET_ALIGN: nat := 16

  /** The largest signed word. */
  const MAX_LAYOUT: nat := 0x7FFF_FFFF_FFFF_FFFF

  datatype Block = Block(base: nat, cap: nat, align: nat)

  datatype State = State(blocks: seq<Block>, current: nat, remaining: nat, usage: nat)

  const EMPTY: State := State([], 0, 0, 0)

  function Max(a: nat, b: nat): nat { if a >= b then a else b }

  /** The distance to the next multiple of align.  The code masks with align - 1, which is the same for powers
      of two (RegisterStructs.AndMask); all of the runtime's requests are aligned to sixteen. */
  function Padding(a: nat, align: nat): (r: nat)
    requires align > 0
    ensures r < align && (a + r) % align == 0
  {
    PaddingAligns(a, align);
    if a % align == 0 then 0 else align - a % align
  }

  lemma PaddingAligns(a: nat, align: nat)
    requires align > 0
    ensures a % align != 0 ==> (a + (align - a % align)) % align == 0
  {
    if a % align != 0 {
      var q, r := a / align, a % align;
      assert a == q * align + r;
      assert a + (align - r) == (q + 1) * align;
      ModUnique((q + 1) * align, align, q + 1, 0);
    }
  }

  predicate FitsHere(s: State, size: nat, align: nat)
    requires align > 0
  {
    size + Padding(s.current, align) <= s.remaining
  }

  /** A fresh block, aligned as asked. */
  predicate Offered(base: nat, align: nat)
    requires align > 0
  {
    base > 0 && base % align == 0
  }

  /** A layout's size may not exceed the largest signed word when it is rounded up to the alignment. */
  predicate Describable(size: nat, align: nat) {
    size + align <= MAX_LAYOUT + 1
  }

  /** That is: its size, rounded up to the next multiple, is at most the largest signed word, for alignments
      that divide the word after it, as all powers of two below do. */
  lemma DescribableRounds(size: nat, align: nat)
    requires align > 0 && (MAX_LAYOUT + 1) % align == 0
    ensures Describable(size, align) <==> size + Padding(size, align) <= MAX_LAYOUT
  {
    var r, m := size + Padding(size, align), MAX_LAYOUT + 1;
    var q, k := r / align, m / align;
    assert r == q * align && m == k * align;
    if r < m {
      if q >= k { MulMono(k, q, align); }
      MulMono(q, k - 1, align);
      assert (k - 1) * align == m - align;
    }
  }

  lemma LargestSigned()
    ensures MAX_LAYOUT == Pow2(63) - 1
  {
    assert Pow2(10) == 1024;
    Pow2Add(10, 10);
    Pow2Add(20, 20);
    Pow2Add(40, 20);
    assert Pow2(3) == 8;
    Pow2Add(60, 3);
  }

  /** The new state and the granted address; None is the panic of an impossible layout.  The retry is
      the source's: it recurs at most once. */
  function Bump(s: State, size: nat, align: nat, base: nat): (r: Option<(State, nat)>)
    requires align > 0 && Offered(base, align)
    ensures r.None? <==> (!FitsHere(s, size, align) && !Describable(Max(DEFAULT_BLOCK_SIZE, size), align))
    decreases if FitsHere(s, size, align) then 0 else 1
  {
    var padding := Padding(s.current, align);
    if size + padding <= s.remaining then
      var p := s.current + padding;
      Some((State(s.blocks, p + size, s.remaining - (size + padding), s.usage + size), p))
    else
      var cap := Max(DEFAULT_BLOCK_SIZE, size);
      if !Describable(cap, align) then None
      else Bump(State(s.blocks + [Block(base, cap, align)], base, cap, s.usage), size, align, base)
  }

  /** The blocks a reset hands back, with the layout it hands them back under. */
  function Reset(s: State): (r: (State, seq<Block>))
    ensures r.0 == EMPTY && |r.1| == |s.blocks|
  {
    (EMPTY, seq(|s.blocks|, i requires 0 <= i < |s.blocks| => Block(s.blocks[i].base, s.blocks[i].cap, RESET_ALIGN)))
  }

  // ---- the invariant ----

  /** A region handed out since the last reset. */
  datatype Grant = Grant(addr: nat, size: nat)

  predicate Within(g: Grant, b: Block) {
    b.base <= g.addr && g.addr + g.size <= b.base + b.cap
  }

  predicate Apart(a: nat, m: nat, b: nat, n: nat) {
    a + m <= b || b + n <= a
  }

  predicate BlocksApart(blocks: seq<Block>) {
    forall i, j | 0 <= i < j < |blocks| :: Apart(blocks[i].base, blocks[i].cap, blocks[j].base, blocks[j].cap)
  }

  predicate GrantsApart(grants: seq<Grant>) {
    forall i, j | 0 <= i < j < |grants| :: Apart(grants[i].addr, grants[i].size, grants[j].addr, grants[j].size)
  }

  function Sum(grants: seq<Grant>): nat {
    if grants == [] then 0 else Sum(grants[..|grants| - 1]) + grants[|grants| - 1].size
  }

  /** g lies in a block, and below the bump pointer if that block is the current one. */
  ghost predicate Placed(s: State, g: Grant) {
    exists i :: 0 <= i < |s.blocks| && Within(g, s.blocks[i]) && (i == |s.blocks| - 1 ==> g.addr + g.size <= s.current)
  }

  predicate Consistent(s: State) {
    && BlocksApart(s.blocks)
    && (forall i | 0 <= i < |s.blocks| :: s.blocks[i].base > 0)
    && (s.blocks == [] ==> s.current == s.remaining == 0)
    && (s.blocks != [] ==>
          var b := s.blocks[|s.blocks| - 1];
          b.base <= s.current && s.current + s.remaining == b.base + b.cap)
  }

  ghost predicate Inv(s: State, grants: seq<Grant>) {
    && Consistent(s)
    && (forall i | 0 <= i < |grants| :: grants[i].size > 0 && Placed(s, grants[i]))
    && GrantsApart(grants)
    && s.usage == Sum(grants)
  }

  /** The system allocator's promise: the block it offers overlaps no block it has not been given back. */
  predicate FreshBlock(s: State, base: nat, size: nat) {
    forall i | 0 <= i < |s.blocks| :: Apart(s.blocks[i].base, s.blocks[i].cap, base, Max(DEFAULT_BLOCK_SIZE, size))
  }

  lemma SumSnoc(grants: seq<Grant>, g: Grant)
    ensures Sum(grants + [g]) == Sum(grants) + g.size
  {
    assert (grants + [g])[..|grants|] == grants;
  }

  /** Handing out size bytes of the current block. */
  lemma GrantHere(s: State, grants: seq<Grant>, size: nat, align: nat, base: nat)
    requires align > 0 && Offered(base, align) && Inv(s, grants) && size > 0 && FitsHere(s, size, align)
    ensures var (s', p) := Bump(s, size, align, base).value;
      && Inv(s', grants + [Grant(p, size)]) && p % align == 0 && p > 0 && s'.blocks == s.blocks
  {
    hide GrantsApart, Placed, Padding, BlocksApart;
    var pad := Padding(s.current, align);
    var g := Grant(s.current + pad, size);
    var s' := Bump(s, size, align, base).value.0;
    SumSnoc(grants, g);
    GrantPlaced(s, s', pad, g);
    forall i | 0 <= i < |grants| ensures Placed(s', grants[i]) && Apart(grants[i].addr, grants[i].size, g.addr, size) {
      KeptApart(s, s', grants[i], g);
    }
    ApartSnoc(grants, g);
  }

  lemma GrantPlaced(s: State, s': State, pad: nat, g: Grant)
    requires Consistent(s) && g.addr == s.current + pad && g.size > 0 && g.size + pad <= s.remaining
    requires s'.blocks == s.blocks && s'.current == g.addr + g.size && s'.remaining == s.remaining - (g.size + pad)
    ensures s.blocks != [] && Within(g, s.blocks[|s.blocks| - 1]) && Placed(s', g) && Consistent(s')
  {
    assert Within(g, s'.blocks[|s.blocks| - 1]);
  }

  lemma ApartSnoc(grants: seq<Grant>, g: Grant)
    requires GrantsApart(grants)
      && forall i | 0 <= i < |grants| :: Apart(grants[i].addr, grants[i].size, g.addr, g.size)
    ensures GrantsApart(grants + [g])
  {
  }

  /** A grant that was placed before stays placed, and below the new one or in another block. */
  lemma KeptApart(s: State, s': State, h: Grant, g: Grant)
    requires Consistent(s) && s.blocks != [] && s'.blocks == s.blocks && s.current <= s'.current && Placed(s, h)
    requires Within(g, s.blocks[|s.blocks| - 1]) && s.current <= g.addr
    ensures Placed(s', h) && Apart(h.addr, h.size, g.addr, g.size)
  {
    var i :| 0 <= i < |s.blocks| && Within(h, s.blocks[i]) && (i == |s.blocks| - 1 ==> h.addr + h.size <= s.current);
    assert Within(h, s'.blocks[i]);
    if i < |s.blocks| - 1 {
      var b, c := s.blocks[i], s.blocks[|s.blocks| - 1];
      assert Apart(b.base, b.cap, c.base, c.cap);
    }
  }

  /** Opening a fresh block keeps the invariant. */
  lemma OpenBlock(s: State, grants: seq<Grant>, cap: nat, align: nat, base: nat)
    requires Inv(s, grants) && base > 0
    requires forall i | 0 <= i < |s.blocks| :: Apart(s.blocks[i].base, s.blocks[i].cap, base, cap)
    ensures Inv(State(s.blocks + [Block(base, cap, align)], base, cap, s.usage), grants)
  {
    var s' := State(s.blocks + [Block(base, cap, align)], base, cap, s.usage);
    forall k | 0 <= k < |grants| ensures Placed(s', grants[k]) {
      var i :| 0 <= i < |s.blocks| && Within(grants[k], s.blocks[i])
        && (i == |s.blocks| - 1 ==> grants[k].addr + grants[k].size <= s.current);
      assert Within(grants[k], s'.blocks[i]);
    }
  }

  /** A successful bump of a positive size: aligned, non-null, inside one live block, disjoint from every
      grant since the last reset, and accounted for. */
  lemma BumpSafe(s: State, grants: seq<Grant>, size: nat, align: nat, base: nat)
    requires align > 0 && Offered(base, align) && Inv(s, grants) && size > 0 && FreshBlock(s, base, size)
    requires Bump(s, size, align, base).Some?
    ensures var (s', p) := Bump(s, size, align, base).value;
      && Inv(s', grants + [Grant(p, size)]) && p % align == 0 && p > 0
      && s.blocks <= s'.blocks && s'.usage == s.usage + size
  {
    hide Inv;
    if FitsHere(s, size, align) {
      GrantHere(s, grants, size, align, base);
    } else {
      var cap := Max(DEFAULT_BLOCK_SIZE, size);
      var s1 := State(s.blocks + [Block(base, cap, align)], base, cap, s.usage);
      OpenBlock(s, grants, cap, align, base);
      GrantHere(s1, grants, size, align, base);
    }
  }

  /** A request for no bytes hands out nothing, but may pad, or open a block to pad no more. */
  lemma BumpEmpty(s: State, grants: seq<Grant>, align: nat, base: nat)
    requires align > 0 && Offered(base, align) && Inv(s, grants) && FreshBlock(s, base, 0)
    requires Bump(s, 0, align, base).Some?
    ensures var s' := Bump(s, 0, align, base).value.0; Inv(s', grants) && s.blocks <= s'.blocks
  {
    hide Inv;
    if FitsHere(s, 0, align) {
      PadHere(s, grants, align, base);
    } else {
      var s1 := State(s.blocks + [Block(base, DEFAULT_BLOCK_SIZE, align)], base, DEFAULT_BLOCK_SIZE, s.usage);
      OpenBlock(s, grants, DEFAULT_BLOCK_SIZE, align, base);
      PadHere(s1, grants, align, base);
    }
  }

  lemma PadHere(s: State, grants: seq<Grant>, align: nat, base: nat)
    requires align > 0 && Offered(base, align) && Inv(s, grants) && FitsHere(s, 0, align)
    ensures var s' := Bump(s, 0, align, base).value.0; Inv(s', grants) && s'.blocks == s.blocks
  {
    hide GrantsApart, Placed, Padding, BlocksApart;
    var s' := Bump(s, 0, align, base).value.0;
    PaddingOfNone(s, align);
    forall i | 0 <= i < |grants| ensures Placed(s', grants[i]) { StillPlaced(s, s', grants[i]); }
  }

  lemma PaddingOfNone(s: State, align: nat)
    requires align > 0 && FitsHere(s, 0, align)
    ensures Padding(s.current, align) <= s.remaining
  {
  }

  lemma StillPlaced(s: State, s': State, g: Grant)
    requires Placed(s, g) && s'.blocks == s.blocks && s.current <= s'.current
    ensures Placed(s', g)
  {
    var i :| 0 <= i < |s.blocks| && Within(g, s.blocks[i]) && (i == |s.blocks| - 1 ==> g.addr + g.size <= s.current);
    assert Within(g, s'.blocks[i]);
  }

  /** At most one block is opened, and only when the current one is exhausted. */
  lemma OneBlockAtMost(s: State, size: nat, align: nat, base: nat)
    requires align > 0 && Offered(base, align) && Bump(s, size, align, base).Some?
    ensures var s' := Bump(s, size, align, base).value.0;
      s'.blocks == if FitsHere(s, size, align) then s.blocks
        else s.blocks + [Block(base, Max(DEFAULT_BLOCK_SIZE, size), align)]
  {
  }

  /** A zero-size request is granted in place: the null address on an empty arena. */
  lemma ZeroSizeIsNull(align: nat, base: nat)
    requires align > 0 && Offered(base, align)
    ensures Bump(EMPTY, 0, align, base) == Some((EMPTY, 0))
  {
    assert 0 % align == 0;
  }

  /** A reset frees every block once, and under the layout it was allocated with exactly when that
      layout's alignment was sixteen. */
  lemma ResetFrees(s: State, grants: seq<Grant>)
    requires Inv(s, grants)
    ensures var (s', freed) := Reset(s);
      && Inv(s', [])
      && |freed| == |s.blocks| && BlocksApart(freed)
      && (forall i | 0 <= i < |freed| :: freed[i].base == s.blocks[i].base && freed[i].cap == s.blocks[i].cap)
      && (freed == s.blocks <==> forall i | 0 <= i < |s.blocks| :: s.blocks[i].align == RESET_ALIGN)
  {
    var freed := Reset(s).1;
    forall i, j | 0 <= i < j < |freed| ensures Apart(freed[i].base, freed[i].cap, freed[j].base, freed[j].cap) {
      assert Apart(s.blocks[i].base, s.blocks[i].cap, s.blocks[j].base, s.blocks[j].cap);
    }
    if freed == s.blocks {
      forall i | 0 <= i < |s.blocks| ensures s.blocks[i].align == RESET_ALIGN { assert freed[i].align == RESET_ALIGN; }
    }
  }

  // ---- runs ----

  datatype Call = Alloc(size: nat, align: nat, base: nat) | ResetAll

  ghost predicate Allowed(s: State, c: Call) {
    match c
    case Alloc(size, align, base) =>
      && size > 0 && align > 0 && Offered(base, align) && FreshBlock(s, base, size)
      && Bump(s, size, align, base).Some?
    case ResetAll => true
  }

  function After(s: State, grants: seq<Grant>, c: Call): (r: (State, seq<Grant>))
    requires Allowed(s, c)
  {
    match c
    case Alloc(size, align, base) =>
      var (s', p) := Bump(s, size, align, base).value;
      (s', grants + [Grant(p, size)])
    case ResetAll => (Reset(s).0, [])
  }

  /** The state and the outstanding grants after a sequence of calls; None if some call was not allowed. */
  ghost function Run(calls: seq<Call>): Option<(State, seq<Grant>)> {
    if calls == [] then Some((EMPTY, []))
    else match Run(calls[..|calls| - 1])
      case None => None
      case Some((s, grants)) =>
        var c := calls[|calls| - 1];
        if Allowed(s, c) then Some(After(s, grants, c)) else None
  }

  /** Whatever is allocated and reset, outstanding grants lie in live blocks and never overlap, and usage
      is the sum of their sizes. */
  lemma {:induction false} RunSafe(calls: seq<Call>)
    requires Run(calls).Some?
    ensures var (s, grants) := Run(calls).value; Inv(s, grants)
  {
    if calls != [] {
      RunSafe(calls[..|calls| - 1]);
      var (s, grants) := Run(calls[..|calls| - 1]).value;
      match calls[|calls| - 1]
      case Alloc(size, align, base) => BumpSafe(s, grants, size, align, base);
      case ResetAll => ResetFrees(s, grants);
    }
  }

  /** Requests aligned to sixteen, as all of the runtime's are: every block is freed under the layout it
      was allocated with. */
  lemma {:induction false} RunFreesAsAllocated(calls: seq<Call>)
    requires Run(calls).Some? && forall i | 0 <= i < |calls| && calls[i].Alloc? :: calls[i].align == RESET_ALIGN
    ensures var s := Run(calls).value.0;
      (forall i | 0 <= i < |s.blocks| :: s.blocks[i].align == RESET_ALIGN) && Reset(s).1 == s.blocks
  {
    hide FreshBlock, FitsHere;
    if calls != [] {
      var n := |calls| - 1;
      RunFreesAsAllocated(calls[..n]);
      var s := Run(calls[..n]).value.0;
      match calls[n]
      case Alloc(size, align, base) => OneBlockAtMost(s, size, align, base);
      case ResetAll =>
    }
  }

  // ---- the arena object ----

  class BumpArena {
    var blocks: seq<Block>
    var current: nat
    var remaining: nat
    var usage: nat

    function Now(): State
      reads this
    {
      State(blocks, current, remaining, usage)
    }

    constructor ()
      ensures Now() == EMPTY
    {
      blocks, current, remaining, usage := [], 0, 0, 0;
    }

    /** False is the panic of an impossible layout, which leaves the arena as it was. */
    method Alloc(size: nat, align: nat, base: nat) returns (ok: bool, p: nat)
      requires align > 0 && Offered(base, align)
      modifies this
      ensures ok <==> Bump(old(Now()), size, align, base).Some?
      ensures if ok then (Now(), p) == Bump(old(Now()), size, align, base).value else Now() == old(Now())
      decreases if FitsHere(Now(), size, align) then 0 else 1
    {
      var padding := Padding(current, align);
      var needed := size + padding;
      ok, p := true, 0;
      if needed <= remaining {
        p := current + padding;
        current := p + size;
        remaining := remaining - needed;
        usage := usage + size;
      } else {
        var cap := Max(DEFAULT_BLOCK_SIZE, size);
        if !Describable(cap, align) { return false, 0; }
        blocks := blocks + [Block(base, cap, align)];
        current := base;
        remaining := cap;
        ok, p := Alloc(size, align, base);
      }
    }

    method FreeAll() returns (freed: seq<Block>)
      modifies this
      ensures (Now(), freed) == Reset(old(Now()))
    {
      freed := [];
      for i := 0 to |blocks|
        invariant freed == Reset(Now()).1[..i] && Now() == old(Now())
      {
        freed := freed + [Block(blocks[i].base, blocks[i].cap, RESET_ALIGN)];
      }
      assert freed == Reset(Now()).1;
      blocks, current, remaining, usage := [], 0, 0, 0;
    }
  }
}

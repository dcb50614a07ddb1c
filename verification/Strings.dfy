/** Strings on the heap: a type tag, a length word, the bytes and a terminating zero. */
module Strings {
  import opened Wrappers
  import opened Words
  import opened Arena
  import opened Heap

  /** Tag, length and terminator. */
  const OVERHEAD: nat := 17

  // ---- allocation ----

  /** What allocation writes at q; the string's address is q + 8. */
  function StringMem(m: Mem, q: nat, tag: nat, bs: seq<Byte>): Mem {
    var m1 := PutWord(PutWord(m, q, tag), q + 8, |bs|);
    Put(Put(m1, q + 16 + |bs|, [0]), q + 16, bs)
  }

  function MakeString(h: Heap, bs: seq<Byte>, tag: nat, base: nat): Option<(Heap, nat)>
    requires Offered(base, ALIGN)
  {
    match BumpAlloc(h, OVERHEAD + |bs|, base)
    case None => None
    case Some((h1, q)) => Some((h1.(mem := StringMem(h1.mem, q, tag, bs)), q + 8))
  }

  /** A string from len bytes at data; a null pointer, or a negative length, gives null. */
  function FromRaw(h: Heap, data: nat, len: int, tag: nat, base: nat): Option<(Heap, nat)>
    requires Offered(base, ALIGN)
  {
    if data == 0 || len < 0 then Some((h, 0)) else MakeString(h, Get(h.mem, data, len), tag, base)
  }

  /** p is a string with these bytes. */
  ghost predicate IsString(h: Heap, p: nat, bs: seq<Byte>) {
    && p >= 8 && Grant(p - 8, OVERHEAD + |bs|) in h.grants
    && Word(h.mem, p) == |bs| && Get(h.mem, p + 8, |bs|) == bs && h.mem(p + 8 + |bs|) == 0
  }

  /** h' extends h by one grant, and differs from it only there. */
  ghost predicate Adds(h: Heap, h': Heap, p: nat, n: nat) {
    && HeapOK(h') && h'.grants == h.grants + [Grant(p, n)] && Clear(h, p, n) && n > 0
    && forall x: nat | !(p <= x < p + n) :: h'.mem(x) == h.mem(x)
  }

  lemma StringWritten(m: Mem, q: nat, tag: nat, bs: seq<Byte>)
    requires |bs| < Limit()
    ensures var m' := StringMem(m, q, tag, bs);
      && Word(m', q + 8) == |bs| && Get(m', q + 16, |bs|) == bs && m'(q + 16 + |bs|) == 0
      && (tag < Limit() ==> Word(m', q) == tag)
      && forall x: nat | !(q <= x < q + OVERHEAD + |bs|) :: m'(x) == m(x)
  {
    hide Limit, Word, BytesOf;
    var m0 := PutWord(m, q, tag);
    var m1 := PutWord(m0, q + 8, |bs|);
    var m2 := Put(m1, q + 16 + |bs|, [0]);
    var m' := StringMem(m, q, tag, bs);
    WordPut(m0, q + 8, |bs|);
    PutElsewhere(m1, q + 16 + |bs|, [0], q + 8, W);
    PutElsewhere(m2, q + 16, bs, q + 8, W);
    SameTrans(m1, m2, m', q + 8, W);
    WordSame(m1, m', q + 8);
    GetPut(m2, q + 16, bs);
    if tag < Limit() { TagLasts(m, q, tag, m'); }
  }

  /** A word that is stored first, and not stored over. */
  lemma TagLasts(m: Mem, q: nat, tag: nat, m': Mem)
    requires tag < Limit() && SameOn(PutWord(m, q, tag), m', q, W)
    ensures Word(m', q) == tag
  {
    hide Limit, Word, BytesOf;
    WordPut(m, q, tag);
    WordSame(PutWord(m, q, tag), m', q);
  }

  lemma MakeEffect(h: Heap, bs: seq<Byte>, tag: nat, base: nat)
    requires HeapOK(h) && Usable(h, base, OVERHEAD + |bs|) && MakeString(h, bs, tag, base).Some?
    ensures var (h', p) := MakeString(h, bs, tag, base).value;
      && p > 8 && IsString(h', p, bs) && Adds(h, h', p - 8, OVERHEAD + |bs|)
      && (tag < Limit() ==> Word(h'.mem, p - 8) == tag)
  {
    hide Limit, Word, Inv, StringMem, Bump, Space, FreshBlock, GrantsApart, Clear;
    AllocSafe(h, OVERHEAD + |bs|, base);
    var (h1, q) := BumpAlloc(h, OVERHEAD + |bs|, base).value;
    assert Grant(q, OVERHEAD + |bs|) in h1.grants;
    GrantBound(h1, Grant(q, OVERHEAD + |bs|));
    StringWritten(h1.mem, q, tag, bs);
  }

  /** A string whose region is as it was. */
  lemma StringSame(h: Heap, h': Heap, p: nat, bs: seq<Byte>)
    requires IsString(h, p, bs) && Grant(p - 8, OVERHEAD + |bs|) in h'.grants
    requires SameOn(h.mem, h'.mem, p - 8, OVERHEAD + |bs|)
    ensures IsString(h', p, bs)
  {
    hide Word;
    assert SameOn(h.mem, h'.mem, p, W);
    WordSame(h.mem, h'.mem, p);
    GetSame(h.mem, h'.mem, p + 8, |bs|);
  }

  lemma StringKept(h: Heap, h': Heap, p: nat, bs: seq<Byte>)
    requires IsString(h, p, bs) && Keeps(h, h')
    ensures IsString(h', p, bs)
  {
    hide Word, SameOn;
    assert Intact(h, h', Grant(p - 8, OVERHEAD + |bs|));
    StringSame(h, h', p, bs);
  }

  /** One grant more. */
  lemma AddsExtends(h: Heap, h': Heap, p: nat, n: nat)
    requires Adds(h, h', p, n)
    ensures Extends(h, h') && Since(h, h').grants == [Grant(p, n)]
  {
    hide HeapOK;
    forall g | g in h.grants ensures Intact(h, h', g) { assert Arena.Apart(g.addr, g.size, p, n); }
  }

  /** A new string is new. */
  lemma StringSince(h: Heap, h': Heap, p: nat, bs: seq<Byte>)
    requires p >= 8 && Adds(h, h', p - 8, OVERHEAD + |bs|) && IsString(h', p, bs)
    ensures Extends(h, h') && IsString(Since(h, h'), p, bs)
  {
    hide Word, Extends, Adds;
    AddsExtends(h, h', p - 8, OVERHEAD + |bs|);
  }

  /** What raw bytes become: null exactly for null data or a negative length, with nothing changed;
      otherwise a new string of those bytes, the empty one included. */
  lemma RawEffect(h: Heap, data: nat, len: int, tag: nat, base: nat)
    requires HeapOK(h) && Offered(base, ALIGN) && (data != 0 && len >= 0 ==> Usable(h, base, OVERHEAD + len))
    requires FromRaw(h, data, len, tag, base).Some?
    ensures var (h', p) := FromRaw(h, data, len, tag, base).value;
      && (p == 0 <==> data == 0 || len < 0)
      && if p == 0 then h' == h
        else
          && len >= 0 && p > 8 && IsString(h', p, Get(h.mem, data, len)) && Adds(h, h', p - 8, OVERHEAD + len)
          && (tag < Limit() ==> Word(h'.mem, p - 8) == tag)
  {
    hide HeapOK, IsString, Adds, MakeString, FreshBlock, Space;
    if data != 0 && len >= 0 { MakeEffect(h, Get(h.mem, data, len), tag, base); }
  }

  // ---- concatenation ----

  /** Lengths are read from the operands; a null operand gives null. */
  function Concat(h: Heap, a: nat, b: nat, tag: nat, base: nat): Option<(Heap, nat)>
    requires Offered(base, ALIGN)
  {
    if a == 0 || b == 0 then Some((h, 0))
    else MakeString(h, Get(h.mem, a + 8, Word(h.mem, a)) + Get(h.mem, b + 8, Word(h.mem, b)), tag, base)
  }

  lemma ConcatEffect(h: Heap, a: nat, b: nat, x: seq<Byte>, y: seq<Byte>, tag: nat, base: nat)
    requires HeapOK(h) && IsString(h, a, x) && IsString(h, b, y)
    requires Usable(h, base, OVERHEAD + |x + y|) && Concat(h, a, b, tag, base).Some?
    ensures var (h', p) := Concat(h, a, b, tag, base).value;
      && p > 8 && IsString(h', p, x + y) && Adds(h, h', p - 8, OVERHEAD + |x + y|)
      && (tag < Limit() ==> Word(h'.mem, p - 8) == tag)
  {
    hide Word, HeapOK, MakeString, Usable, Clear;
    MakeEffect(h, x + y, tag, base);
  }

  /** A null operand, on either side, gives null and changes nothing. */
  lemma ConcatNull(h: Heap, a: nat, b: nat, tag: nat, base: nat)
    requires Offered(base, ALIGN) && (a == 0 || b == 0)
    ensures Concat(h, a, b, tag, base) == Some((h, 0))
  {
    hide MakeString, Word;
  }

  function Joined(xs: seq<seq<Byte>>): seq<Byte> {
    if xs == [] then [] else Joined(xs[..|xs| - 1]) + xs[|xs| - 1]
  }

  /** The emitted left fold: operands i, i + 1, ... onto acc, each new string at its own base. */
  function FoldConcat(h: Heap, acc: nat, ops: seq<nat>, i: nat, tag: nat, bases: seq<nat>): Option<(Heap, nat)>
    requires |bases| == |ops| && forall j | 0 <= j < |bases| :: Offered(bases[j], ALIGN)
    decreases |ops| - i
  {
    if i >= |ops| then Some((h, acc))
    else match Concat(h, acc, ops[i], tag, bases[i])
      case None => None
      case Some((h1, p)) => FoldConcat(h1, p, ops, i + 1, tag, bases)
  }

  /** The system allocator can serve every step of the fold. */
  ghost predicate Served(h: Heap, acc: nat, ops: seq<nat>, i: nat, tag: nat, bases: seq<nat>, xs: seq<seq<Byte>>)
    requires |bases| == |ops| && |xs| == |ops| && (forall j | 0 <= j < |bases| :: Offered(bases[j], ALIGN))
    decreases |ops| - i
  {
    i < |ops| ==>
      && Usable(h, bases[i], OVERHEAD + |Joined(xs[..i + 1])|)
      && (Concat(h, acc, ops[i], tag, bases[i]).Some? ==>
            var (h1, p) := Concat(h, acc, ops[i], tag, bases[i]).value;
            Served(h1, p, ops, i + 1, tag, bases, xs))
  }

  ghost predicate AreStrings(h: Heap, ops: seq<nat>, xs: seq<seq<Byte>>) {
    |ops| == |xs| && forall j | 0 <= j < |ops| :: IsString(h, ops[j], xs[j])
  }

  lemma AreKept(h: Heap, h': Heap, ops: seq<nat>, xs: seq<seq<Byte>>)
    requires AreStrings(h, ops, xs) && Keeps(h, h')
    ensures AreStrings(h', ops, xs)
  {
    hide IsString, Keeps;
    forall j | 0 <= j < |ops| ensures IsString(h', ops[j], xs[j]) { StringKept(h, h', ops[j], xs[j]); }
  }

  /** The fold concatenates all operands, in order, and leaves each of them as it was. */
  lemma {:induction false} FoldCorrect(h: Heap, acc: nat, ops: seq<nat>, i: nat, tag: nat, bases: seq<nat>,
          xs: seq<seq<Byte>>)
    requires HeapOK(h) && AreStrings(h, ops, xs) && i <= |ops| && IsString(h, acc, Joined(xs[..i]))
    requires |bases| == |ops| && forall j | 0 <= j < |bases| :: Offered(bases[j], ALIGN)
    requires Served(h, acc, ops, i, tag, bases, xs) && FoldConcat(h, acc, ops, i, tag, bases).Some?
    ensures var (h', p) := FoldConcat(h, acc, ops, i, tag, bases).value;
      HeapOK(h') && IsString(h', p, Joined(xs)) && AreStrings(h', ops, xs)
    decreases |ops| - i
  {
    hide HeapOK, IsString, Usable, Concat, Offered, Adds, Keeps;
    if i == |ops| {
      AllOf(h, ops, xs, i);
    } else {
      NextString(h, ops, xs, i);
      ConcatEffect(h, acc, ops[i], Joined(xs[..i]), xs[i], tag, bases[i]);
      var (h1, p) := Concat(h, acc, ops[i], tag, bases[i]).value;
      AddsExtends(h, h1, p - 8, OVERHEAD + |Joined(xs[..i]) + xs[i]|);
      AreKept(h, h1, ops, xs);
      FoldCorrect(h1, p, ops, i + 1, tag, bases, xs);
    }
  }

  lemma AllOf(h: Heap, ops: seq<nat>, xs: seq<seq<Byte>>, i: nat)
    requires AreStrings(h, ops, xs) && i == |ops|
    ensures xs[..i] == xs
  {
  }

  lemma NextString(h: Heap, ops: seq<nat>, xs: seq<seq<Byte>>, i: nat)
    requires AreStrings(h, ops, xs) && i < |ops|
    ensures IsString(h, ops[i], xs[i]) && Joined(xs[..i + 1]) == Joined(xs[..i]) + xs[i]
  {
    hide IsString;
    assert xs[..i + 1][..i] == xs[..i];
  }

  /** `a * b * ...`: the whole expression. */
  lemma ConcatAll(h: Heap, ops: seq<nat>, tag: nat, bases: seq<nat>, xs: seq<seq<Byte>>)
    requires HeapOK(h) && AreStrings(h, ops, xs) && |ops| >= 1
    requires |bases| == |ops| && forall j | 0 <= j < |bases| :: Offered(bases[j], ALIGN)
    requires Served(h, ops[0], ops, 1, tag, bases, xs) && FoldConcat(h, ops[0], ops, 1, tag, bases).Some?
    ensures var (h', p) := FoldConcat(h, ops[0], ops, 1, tag, bases).value;
      IsString(h', p, Joined(xs)) && AreStrings(h', ops, xs)
  {
    hide HeapOK, IsString, Served, FoldConcat;
    assert xs[..1] == [xs[0]] && Joined(xs[..1]) == xs[0] by {
      assert xs[..1][..0] == [];
      assert [] + xs[0] == xs[0];
    }
    FoldCorrect(h, ops[0], ops, 1, tag, bases, xs);
  }

  // ---- equality ----

  /** The byte loop that replaces memcmp. */
  method Equal(a: seq<Byte>, b: seq<Byte>) returns (r: bool)
    ensures r <==> a == b
  {
    if |a| != |b| { return false; }
    var i := 0;
    while i < |a|
      invariant 0 <= i <= |a| == |b| && a[..i] == b[..i]
    {
      if a[i] != b[i] { return false; }
      i := i + 1;
    }
    r := true;
  }
}

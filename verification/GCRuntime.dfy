/** The runtime as it runs: one thread's arena, memory and caches, updated store by store.  Each method
    is the corresponding function on heaps, applied to the runtime's state. */
module GCRuntime {
  import opened Wrappers
  import opened Words
  import opened Arena
  import opened Heap
  import opened Arrays
  import opened ArrayOps
  import opened Strings
  import opened Caches
  import D = Dictionaries
  import CT = ConstTables

  class ThreadState {
    var mem: Mem
    var arena: Arena.State
    var rodata: map<nat, nat>
    var syms: seq<(seq<Byte>, nat)>
    ghost var grants: seq<Grant>

    ghost function Now(): Heap
      reads this
    {
      Heap(mem, arena, grants)
    }

    ghost function Tables(): Runtime
      reads this
    {
      Runtime(Now(), rodata, syms)
    }

    constructor (initial: Mem)
      ensures Now() == Heap(initial, EMPTY, []) && Tables() == Runtime(Now(), map[], [])
    {
      mem, arena, rodata, syms, grants := initial, EMPTY, map[], [], [];
    }

    method Store(a: nat, bs: seq<Byte>)
      modifies this`mem
      ensures mem == Put(old(mem), a, bs)
    {
      mem := Put(mem, a, bs);
    }

    method StoreWord(a: nat, v: nat)
      modifies this`mem
      ensures mem == PutWord(old(mem), a, v)
    {
      Store(a, BytesOf(v, W));
    }

    /** Words one after another. */
    method StoreWords(a: nat, ws: seq<nat>)
      modifies this`mem
      ensures mem == D.PutWords(old(mem), a, ws)
    {
      hide PutWord;
      for i := 0 to |ws|
        invariant mem == D.PutWords(old(mem), a, ws[..i])
      {
        assert ws[..i + 1][..i] == ws[..i];
        StoreWord(a + W * i, ws[i]);
      }
      assert ws[..|ws|] == ws;
    }

    /** False is the panic of an allocation that cannot be laid out. */
    method Alloc(size: nat, base: nat) returns (ok: bool, p: nat)
      requires Offered(base, ALIGN)
      modifies this`arena, this`grants
      ensures ok <==> BumpAlloc(old(Now()), size, base).Some?
      ensures if ok then (Now(), p) == BumpAlloc(old(Now()), size, base).value else Now() == old(Now())
    {
      match Bump(arena, size, ALIGN, base)
      case None => ok, p := false, 0;
      case Some((s, q)) =>
        arena := s;
        grants := Granted(grants, q, size);
        ok, p := true, q;
    }

    // ---- arrays ----

    method NewMemory(n: nat, es: nat, tag: nat, base: nat) returns (ok: bool, p: nat)
      requires Offered(base, ALIGN)
      modifies this`mem, this`arena, this`grants
      ensures ok <==> ArrayOps.NewMemory(old(Now()), n, es, tag, base).Some?
      ensures ok ==> (Now(), p) == ArrayOps.NewMemory(old(Now()), n, es, tag, base).value
    {
      hide Bump;
      ok, p := Alloc(16 + Span(n, es), base);
      if ok {
        StoreWord(p, tag);
        StoreWord(p + 8, n);
        p := p + 16;
      }
    }

    method NewArray(atype: nat, elems: nat, nel: int, base: nat) returns (ok: bool, p: nat)
      requires Offered(base, ALIGN) && elems >= 8
      modifies this`mem, this`arena, this`grants
      ensures ok <==> ArrayOps.NewArray(old(Now()), atype, elems, nel, base).Some?
      ensures ok ==> (Now(), p) == ArrayOps.NewArray(old(Now()), atype, elems, nel, base).value
    {
      hide Bump;
      if atype == 0 { return true, 0; }
      var n: nat := if nel < 0 then 0 else nel;
      ok, p := Alloc(HEADER + REPR, base);
      if ok {
        StoreWord(p, atype);
        var a := p + HEADER;
        StoreWord(a, elems);
        StoreWord(a + 8, elems - 8);
        StoreWord(a + 24, n);
        StoreWord(a + 16, n);
        p := a;
      }
    }

    method GrowEnd(a: nat, delta: int, es: nat, base: nat) returns (ok: bool)
      requires Offered(base, ALIGN)
      modifies this`mem, this`arena, this`grants
      ensures ok <==> ArrayOps.GrowEnd(old(Now()), a, delta, es, base).Some?
      ensures ok ==> Now() == ArrayOps.GrowEnd(old(Now()), a, delta, es, base).value
    {
      hide Bump, Word, Put, PutWord;
      if a == 0 || delta <= 0 { return true; }
      var newLen: nat := Length(mem, a) + delta;
      var src, bytes := ElemPtr(mem, a), Span(Length(mem, a), es);
      var p: nat;
      ok, p := Alloc(16 + Span(newLen, es), base);
      if ok {
        if src >= 16 { StoreWord(p, Word(mem, src - 16)); }
        if bytes > 0 && src != 0 { Store(p + 16, Get(mem, src, bytes)); }
        StoreWord(p + 8, newLen);
        StoreWord(a, p + 16);
        StoreWord(a + 8, p + 8);
        StoreWord(a + 24, newLen);
        StoreWord(a + 16, newLen);
      }
    }

    method DelEnd(a: nat, dec: int, es: nat)
      modifies this`mem
      ensures Now() == ArrayOps.DelEnd(old(Now()), a, dec, es)
    {
      hide Word, Put, PutWord, Span, Zeros;
      if a == 0 || dec <= 0 { return; }
      var len := Length(mem, a);
      var d := if dec <= len then dec else len;
      var n := len - d;
      var data := ElemPtr(mem, a);
      if Span(d, es) > 0 && data != 0 { Store(data + Span(n, es), Zeros(Span(d, es))); }
      StoreWord(a + 16, n);
      if MemObj(mem, a) != 0 { StoreWord(MemObj(mem, a), n); }
    }

    method Resize(a: nat, n: int, es: nat, base: nat) returns (ok: bool)
      requires Offered(base, ALIGN)
      modifies this`mem, this`arena, this`grants
      ensures ok <==> ArrayOps.Resize(old(Now()), a, n, es, base).Some?
      ensures ok ==> Now() == ArrayOps.Resize(old(Now()), a, n, es, base).value
    {
      hide Word, ArrayOps.GrowEnd, ArrayOps.DelEnd;
      ok := true;
      if a != 0 {
        var cur := Length(mem, a);
        var n' := if n < 0 then 0 else n;
        if n' > cur { ok := GrowEnd(a, n' - cur, es, base); }
        else if n' < cur { DelEnd(a, cur - n', es); }
      }
    }

    /** The compiler's two field stores for a front compaction. */
    method CompactFront(a: nat, delta: nat, es: nat)
      modifies this`mem
      ensures Now() == ArrayOps.CompactFront(old(Now()), a, delta, es)
    {
      hide Word, PutWord;
      var ref := ElemPtr(mem, a);
      var v := Length(mem, a) - delta;
      StoreWord(a + 16, if v < 0 then 0 else v);
      var target := ref + Span(delta, es);
      var maxRef := ElemPtr(mem, a) + (Capacity(mem, a) - Length(mem, a)) * es;
      StoreWord(a, if target > maxRef && maxRef >= 0 then maxRef else target);
    }

    // ---- strings and caches ----

    method MakeString(bs: seq<Byte>, tag: nat, base: nat) returns (ok: bool, p: nat)
      requires Offered(base, ALIGN)
      modifies this`mem, this`arena, this`grants
      ensures ok <==> Strings.MakeString(old(Now()), bs, tag, base).Some?
      ensures ok ==> (Now(), p) == Strings.MakeString(old(Now()), bs, tag, base).value
    {
      hide Bump;
      ok, p := Alloc(OVERHEAD + |bs|, base);
      if ok {
        StoreWord(p, tag);
        StoreWord(p + 8, |bs|);
        Store(p + 16 + |bs|, [0]);
        Store(p + 16, bs);
        p := p + 8;
      }
    }

    method FromRaw(data: nat, len: int, tag: nat, base: nat) returns (ok: bool, p: nat)
      requires Offered(base, ALIGN)
      modifies this`mem, this`arena, this`grants
      ensures ok <==> Strings.FromRaw(old(Now()), data, len, tag, base).Some?
      ensures ok ==> (Now(), p) == Strings.FromRaw(old(Now()), data, len, tag, base).value
    {
      hide Strings.MakeString;
      if data == 0 || len < 0 { return true, 0; }
      ok, p := MakeString(Get(mem, data, len), tag, base);
    }

    method Concat(a: nat, b: nat, tag: nat, base: nat) returns (ok: bool, p: nat)
      requires Offered(base, ALIGN)
      modifies this`mem, this`arena, this`grants
      ensures ok <==> Strings.Concat(old(Now()), a, b, tag, base).Some?
      ensures ok ==> (Now(), p) == Strings.Concat(old(Now()), a, b, tag, base).value
    {
      hide Word, Strings.MakeString;
      if a == 0 || b == 0 { return true, 0; }
      ok, p := MakeString(Get(mem, a + 8, Word(mem, a)) + Get(mem, b + 8, Word(mem, b)), tag, base);
    }

    /** The emitted fold of an N-ary concatenation. */
    method ConcatAll(ops: seq<nat>, tag: nat, bases: seq<nat>) returns (ok: bool, acc: nat)
      requires |ops| >= 1 && |bases| == |ops| && forall j | 0 <= j < |bases| :: Offered(bases[j], ALIGN)
      modifies this`mem, this`arena, this`grants
      ensures ok <==> FoldConcat(old(Now()), ops[0], ops, 1, tag, bases).Some?
      ensures ok ==> (Now(), acc) == FoldConcat(old(Now()), ops[0], ops, 1, tag, bases).value
    {
      hide Strings.Concat, Offered;
      ok, acc := true, ops[0];
      ghost var whole := FoldConcat(Now(), ops[0], ops, 1, tag, bases);
      for i := 1 to |ops|
        invariant FoldConcat(Now(), acc, ops, i, tag, bases) == whole
      {
        ok, acc := Concat(acc, ops[i], tag, bases[i]);
        if !ok { return; }
      }
      ok := true;
    }

    method Intern(name: seq<Byte>, tag: nat, base: nat) returns (ok: bool, p: nat)
      requires Offered(base, ALIGN)
      modifies this
      ensures ok <==> Caches.Intern(old(Tables()), name, tag, base).Some?
      ensures ok ==> (Tables(), p) == Caches.Intern(old(Tables()), name, tag, base).value
    {
      hide Bump;
      var i := 0;
      while i < |syms|
        invariant 0 <= i <= |syms| && FindSym(syms, name, i) == FindSym(syms, name, 0)
      {
        if syms[i].0 == name { return true, syms[i].1; }
        i := i + 1;
      }
      ok, p := Alloc(OVERHEAD + |name|, base);
      if ok {
        StoreWord(p, tag);
        StoreWord(p + 8, 0);
        Store(p + 16, name);
        Store(p + 16 + |name|, [0]);
        p := p + 8;
        syms := syms + [(name, p)];
      }
    }

    method CopyBytes(bs: seq<Byte>, base: nat) returns (ok: bool, p: nat)
      requires Offered(base, ALIGN)
      modifies this`mem, this`arena, this`grants
      ensures ok <==> Caches.CopyBytes(old(Now()), bs, base).Some?
      ensures ok ==> (Now(), p) == Caches.CopyBytes(old(Now()), bs, base).value
    {
      hide Bump;
      ok, p := Alloc(|bs|, base);
      if ok { Store(p, bs); }
    }

    method MakeTable(data: nat, n: nat, tag: nat, base: nat) returns (ok: bool, p: nat)
      requires Offered(base, ALIGN)
      modifies this`mem, this`arena, this`grants
      ensures ok <==> Caches.MakeTable(old(Now()), data, n, tag, base).Some?
      ensures ok ==> (Now(), p) == Caches.MakeTable(old(Now()), data, n, tag, base).value
    {
      hide Bump;
      ok, p := Alloc(HEADER + REPR, base);
      if ok {
        StoreWord(p, tag);
        p := p + HEADER;
        StoreWord(p, data);
        StoreWord(p + 8, p);
        StoreWord(p + 24, n);
        StoreWord(p + 16, n);
      }
    }

    // ---- dictionaries ----

    method MakeMemory(n: nat, data: nat, base: nat) returns (ok: bool, p: nat)
      requires Offered(base, ALIGN)
      modifies this`mem, this`arena, this`grants
      ensures ok <==> D.MakeMemory(old(Now()), n, data, base).Some?
      ensures ok ==> (Now(), p) == D.MakeMemory(old(Now()), n, data, base).value
    {
      hide Bump, D.PutWords;
      ok, p := Alloc(2 * W, base);
      if ok { StoreWords(p, [n, data]); }
    }

    /** The strings of a column, each stored in the array as soon as it is built. */
    method MakeTexts(arr: nat, ts: CT.Table, tag: nat, offers: D.Offers) returns (ok: bool)
      requires D.Offering(offers)
      modifies this`mem, this`arena, this`grants
      ensures ok <==> D.MakeTexts(old(Now()), arr, ts, 0, tag, offers).Some?
      ensures ok ==> Now() == D.MakeTexts(old(Now()), arr, ts, 0, tag, offers).value
    {
      hide Strings.MakeString, Offered;
      ghost var whole := D.MakeTexts(Now(), arr, ts, 0, tag, offers);
      for i := 0 to |ts|
        invariant D.MakeTexts(Now(), arr, ts, i, tag, offers) == whole
      {
        var p := 0;
        if ts[i].Some? {
          ok, p := MakeString(ts[i].value, tag, offers(arena));
          if !ok { return; }
        }
        StoreWord(arr + W * i, p);
      }
      ok := true;
    }

    method MakeColumn(c: D.Column, n: nat, tag: nat, offers: D.Offers) returns (ok: bool, p: nat)
      requires D.Offering(offers)
      modifies this`mem, this`arena, this`grants
      ensures ok <==> D.MakeColumn(old(Now()), c, n, tag, offers).Some?
      ensures ok ==> (Now(), p) == D.MakeColumn(old(Now()), c, n, tag, offers).value
    {
      hide Bump, D.MakeMemory, D.MakeTexts, D.Slots, Offered;
      match c {
        case Bits(data) => ok, p := MakeMemory(n, data, offers(arena));
        case Texts(bytes) =>
          var arr: nat;
          ok, arr := Alloc(W * n, offers(arena));
          if !ok { return false, 0; }
          ok := MakeTexts(arr, D.Slots(bytes, n), tag, offers);
          if !ok { return false, 0; }
          ok, p := MakeMemory(n, arr, offers(arena));
      }
    }

    /** The Memory objects of slots, keys and values, and then the object over them. */
    method MakeDictionary(slots: nat, d: D.Dictionary, tag: nat, textTag: nat, offers: D.Offers)
      returns (ok: bool, p: nat)
      requires D.Offering(offers)
      modifies this`mem, this`arena, this`grants
      ensures ok <==> D.MakeDictionary(old(Now()), slots, d, tag, textTag, offers).Some?
      ensures ok ==> (Now(), p) == D.MakeDictionary(old(Now()), slots, d, tag, textTag, offers).value
    {
      hide Bump, D.MakeMemory, D.MakeColumn, D.PutWords, Offered;
      var s, k, v: nat;
      ok, s := MakeMemory(d.nslots, slots, offers(arena));
      if !ok { return false, 0; }
      ok, k := MakeColumn(d.keys, d.nslots, textTag, offers);
      if !ok { return false, 0; }
      ok, v := MakeColumn(d.vals, d.nslots, textTag, offers);
      if !ok { return false, 0; }
      ok, p := Alloc(W + D.FIELDS, offers(arena));
      if !ok { return false, 0; }
      StoreWord(p, tag);
      p := p + W;
      StoreWords(p, D.Fields(s, k, v, d));
    }

    /** A constant of the image, built on first use. */
    method Fetch(image: Image, key: nat, tag: nat, textTag: nat, offers: D.Offers) returns (ok: bool, p: nat)
      requires D.Offering(offers) && key in image
      modifies this
      ensures ok <==> Caches.Fetch(old(Tables()), image, key, tag, textTag, offers).Some?
      ensures ok ==> (Tables(), p) == Caches.Fetch(old(Tables()), image, key, tag, textTag, offers).value
    {
      hide Strings.MakeString, Caches.CopyBytes, Caches.MakeTable, D.MakeDictionary, Offered;
      if image[key].IsNull(key) { return true, 0; }
      if key in rodata { return true, rodata[key]; }
      match image[key] {
        case Text(bs) => ok, p := MakeString(bs, tag, offers(arena));
        case Copy(bs) => ok, p := CopyBytes(bs, offers(arena));
        case Table(_) => ok, p := MakeTable(key, image[key].Count(), tag, offers(arena));
        case Dict(d) => ok, p := MakeDictionary(key, d, tag, textTag, offers);
      }
      if ok { rodata := rodata[key := p]; }
    }

    /** Frees every block and forgets both caches. */
    method ResetRuntime() returns (freed: seq<Block>)
      modifies this
      ensures Tables() == Caches.ResetAll(old(Tables())) && freed == Reset(old(arena)).1
    {
      var (s, bs) := Reset(arena);
      arena, freed := s, bs;
      rodata, syms := map[], [];
      grants := [];
    }
  }
}

/** Dictionaries rebuilt from read-only data: an object over three Memory objects, whose string columns are
    arrays of pointers to strings that are built one by one. */
module Dictionaries {
  import opened Wrappers
  import opened Words
  import opened Arena
  import opened Heap
  import opened Strings
  import CT = ConstTables

  /** Keys or values: elements that stay where they are, or strings in serialised form. */
  datatype Column = Bits(data: nat) | Texts(bytes: seq<Byte>)

  datatype Dictionary = Dictionary(keys: Column, vals: Column, nslots: nat, ndel: nat, count: nat, floor: nat,
                                   probe: nat)

  /** Where the system allocator would put a block, in each state of the arena.  Allocations of at least a
      byte leave the arena in a state it has not been in since the last reset. */
  type Offers = State -> nat

  ghost predicate Offering(offers: Offers) {
    forall s: State :: Offered(offers(s), ALIGN)
  }

  // ---- consecutive words ----

  function PutWords(m: Mem, a: nat, ws: seq<nat>): Mem {
    if ws == [] then m else PutWord(PutWords(m, a, ws[..|ws| - 1]), a + W * (|ws| - 1), ws[|ws| - 1])
  }

  ghost predicate AreWords(m: Mem, a: nat, ws: seq<nat>) {
    forall i | 0 <= i < |ws| :: Word(m, a + W * i) == ws[i]
  }

  ghost predicate Representable(ws: seq<nat>) {
    forall i | 0 <= i < |ws| :: ws[i] < Limit()
  }

  lemma {:induction false} WordsPut(m: Mem, a: nat, ws: seq<nat>)
    requires Representable(ws)
    ensures AreWords(PutWords(m, a, ws), a, ws)
    ensures forall x: nat | !(a <= x < a + W * |ws|) :: PutWords(m, a, ws)(x) == m(x)
  {
    hide Word, Limit, BytesOf;
    if ws != [] {
      var n := |ws| - 1;
      var m1 := PutWords(m, a, ws[..n]);
      WordsPut(m, a, ws[..n]);
      WordPut(m1, a + W * n, ws[n]);
      forall i | 0 <= i < n ensures Word(PutWords(m, a, ws), a + W * i) == ws[i] {
        assert ws[..n][i] == ws[i];
        WordElsewhere(m1, a + W * n, ws[n], a + W * i);
      }
    }
  }

  lemma WordsSame(m: Mem, m': Mem, a: nat, ws: seq<nat>)
    requires AreWords(m, a, ws) && SameOn(m, m', a, W * |ws|)
    ensures AreWords(m', a, ws)
  {
    hide Word;
    forall i | 0 <= i < |ws| ensures Word(m', a + W * i) == ws[i] { WordSame(m, m', a + W * i); }
  }

  // ---- construction ----

  /** A Memory object over n elements at data. */
  function MakeMemory(h: Heap, n: nat, data: nat, base: nat): Option<(Heap, nat)>
    requires Offered(base, ALIGN)
  {
    match BumpAlloc(h, 2 * W, base)
    case None => None
    case Some((h1, q)) => Some((h1.(mem := PutWords(h1.mem, q, [n, data])), q))
  }

  /** A string for each slot of ts from i on, its pointer stored in the array at arr. */
  function MakeTexts(h: Heap, arr: nat, ts: CT.Table, i: nat, tag: nat, offers: Offers): Option<Heap>
    requires Offering(offers)
    decreases |ts| - i
  {
    if i >= |ts| then Some(h)
    else match MakeText(h, ts[i], tag, offers(h.arena))
      case None => None
      case Some((h1, p)) => MakeTexts(h1.(mem := PutWord(h1.mem, arr + W * i, p)), arr, ts, i + 1, tag, offers)
  }

  function MakeText(h: Heap, t: Option<seq<Byte>>, tag: nat, base: nat): Option<(Heap, nat)>
    requires Offered(base, ALIGN)
  {
    match t case None => Some((h, 0)) case Some(bs) => MakeString(h, bs, tag, base)
  }

  /** The slots of a column, as the runtime walks them. */
  function Slots(bytes: seq<Byte>, n: nat): CT.Table {
    match CT.Walked(bytes, 0, n) case Some(w) => w.out case None => []
  }

  function MakeColumn(h: Heap, c: Column, n: nat, tag: nat, offers: Offers): Option<(Heap, nat)>
    requires Offering(offers)
  {
    match c
    case Bits(data) => MakeMemory(h, n, data, offers(h.arena))
    case Texts(bytes) =>
      match BumpAlloc(h, W * n, offers(h.arena))
      case None => None
      case Some((h1, arr)) =>
        match MakeTexts(h1, arr, Slots(bytes, n), 0, tag, offers)
        case None => None
        case Some(h2) => MakeMemory(h2, n, arr, offers(h2.arena))
  }

  /** The object's eight words; its age is zero. */
  function Fields(slots: nat, keys: nat, vals: nat, d: Dictionary): seq<nat> {
    [slots, keys, vals, d.ndel, d.count, 0, d.floor, d.probe]
  }

  const FIELDS: nat := 64

  function MakeObject(h: Heap, s: nat, k: nat, v: nat, d: Dictionary, tag: nat, base: nat): Option<(Heap, nat)>
    requires Offered(base, ALIGN)
  {
    match BumpAlloc(h, W + FIELDS, base)
    case None => None
    case Some((h1, q)) => Some((h1.(mem := PutWords(PutWord(h1.mem, q, tag), q + W, Fields(s, k, v, d))), q + W))
  }

  function MakeDictionary(h: Heap, slots: nat, d: Dictionary, tag: nat, textTag: nat, offers: Offers)
    : Option<(Heap, nat)>
    requires Offering(offers)
  {
    match MakeMemory(h, d.nslots, slots, offers(h.arena))
    case None => None
    case Some((h1, s)) =>
      match MakeColumn(h1, d.keys, d.nslots, textTag, offers)
      case None => None
      case Some((h2, k)) =>
        match MakeColumn(h2, d.vals, d.nslots, textTag, offers)
        case None => None
        case Some((h3, v)) => MakeObject(h3, s, k, v, d, tag, offers(h3.arena))
  }

  // ---- what is built ----

  ghost predicate IsMemory(h: Heap, p: nat, n: nat, data: nat) {
    Grant(p, 2 * W) in h.grants && AreWords(h.mem, p, [n, data])
  }

  /** Null, or a string. */
  ghost predicate IsSlot(h: Heap, p: nat, t: Option<seq<Byte>>) {
    match t case None => p == 0 case Some(bs) => IsString(h, p, bs)
  }

  /** The pointer in slot i of a string column. */
  function SlotPointer(m: Mem, p: nat, i: nat): nat {
    Word(m, Word(m, p + W) + W * i)
  }

  /** The type tag in front of a string, if there is one. */
  ghost predicate Tagged(h: Heap, p: nat, tag: nat) {
    p == 0 || (p >= W && Word(h.mem, p - W) == tag && exists g :: g in h.grants && g.addr == p - W && g.size >= W)
  }

  /** All strings of a column have the tag. */
  ghost predicate ColumnTagged(h: Heap, p: nat, c: Column, n: nat, tag: nat) {
    c.Texts? ==> forall i | 0 <= i < n :: Tagged(h, SlotPointer(h.mem, p, i), tag)
  }

  ghost predicate IsTexts(h: Heap, arr: nat, ts: CT.Table) {
    && (ts != [] ==> Grant(arr, W * |ts|) in h.grants)
    && forall i | 0 <= i < |ts| :: IsSlot(h, Word(h.mem, arr + W * i), ts[i])
  }

  ghost predicate IsColumn(h: Heap, p: nat, c: Column, n: nat) {
    match c
    case Bits(data) => IsMemory(h, p, n, data)
    case Texts(bytes) =>
      && CT.Walked(bytes, 0, n).Some?
      && IsMemory(h, p, n, Word(h.mem, p + W)) && IsTexts(h, Word(h.mem, p + W), Slots(bytes, n))
  }

  ghost predicate IsDictionary(h: Heap, p: nat, slots: nat, d: Dictionary) {
    && p >= W && Grant(p - W, W + FIELDS) in h.grants
    && AreWords(h.mem, p, Fields(Word(h.mem, p), Word(h.mem, p + 8), Word(h.mem, p + 16), d))
    && IsMemory(h, Word(h.mem, p), d.nslots, slots)
    && IsColumn(h, Word(h.mem, p + 8), d.keys, d.nslots) && IsColumn(h, Word(h.mem, p + 16), d.vals, d.nslots)
  }

  // ---- what keeps the heap's grants keeps a dictionary ----

  lemma MemoryKept(h: Heap, h': Heap, p: nat, n: nat, data: nat)
    requires IsMemory(h, p, n, data) && Keeps(h, h')
    ensures IsMemory(h', p, n, data)
  {
    hide AreWords;
    assert Intact(h, h', Grant(p, 2 * W));
    WordsSame(h.mem, h'.mem, p, [n, data]);
  }

  lemma SlotKept(h: Heap, h': Heap, p: nat, t: Option<seq<Byte>>)
    requires IsSlot(h, p, t) && Keeps(h, h')
    ensures IsSlot(h', p, t)
  {
    hide IsString, Keeps;
    if t.Some? { StringKept(h, h', p, t.value); }
  }

  lemma TaggedKept(h: Heap, h': Heap, p: nat, tag: nat)
    requires Tagged(h, p, tag) && Keeps(h, h')
    ensures Tagged(h', p, tag)
  {
    hide Word, Keeps;
    if p != 0 {
      var g :| g in h.grants && g.addr == p - W && g.size >= W;
      WordKept(h, h', g, p - W);
      GrantKept(h, h', g);
    }
  }

  lemma ColumnTaggedKept(h: Heap, h': Heap, p: nat, c: Column, n: nat, tag: nat)
    requires IsColumn(h, p, c, n) && ColumnTagged(h, p, c, n, tag) && Keeps(h, h')
    ensures ColumnTagged(h', p, c, n, tag)
  {
    hide Word, Keeps, Tagged, IsSlot, AreWords, CT.Walked;
    if c.Texts? {
      WalkLength(c.bytes, 0, n);
      var arr := Word(h.mem, p + W);
      WordKept(h, h', Grant(p, 2 * W), p + W);
      forall i | 0 <= i < n ensures Tagged(h', SlotPointer(h'.mem, p, i), tag) {
        WordKept(h, h', Grant(arr, W * n), arr + W * i);
        TaggedKept(h, h', SlotPointer(h.mem, p, i), tag);
      }
    }
  }

  /** One word of a granted region. */
  lemma WordKept(h: Heap, h': Heap, g: Grant, a: nat)
    requires g in h.grants && Keeps(h, h') && g.addr <= a && a + W <= g.addr + g.size
    ensures Word(h'.mem, a) == Word(h.mem, a)
  {
    hide Word;
    assert Intact(h, h', g);
    WordSame(h.mem, h'.mem, a);
  }

  lemma TextsKept(h: Heap, h': Heap, arr: nat, ts: CT.Table)
    requires IsTexts(h, arr, ts) && Keeps(h, h')
    ensures IsTexts(h', arr, ts)
  {
    hide Word, IsSlot, Keeps;
    if ts != [] { GrantKept(h, h', Grant(arr, W * |ts|)); }
    forall i | 0 <= i < |ts| ensures IsSlot(h', Word(h'.mem, arr + W * i), ts[i]) {
      WordKept(h, h', Grant(arr, W * |ts|), arr + W * i);
      SlotKept(h, h', Word(h.mem, arr + W * i), ts[i]);
    }
  }

  lemma GrantKept(h: Heap, h': Heap, g: Grant)
    requires g in h.grants && Keeps(h, h')
    ensures g in h'.grants
  {
    assert Intact(h, h', g);
  }

  lemma ColumnKept(h: Heap, h': Heap, p: nat, c: Column, n: nat)
    requires IsColumn(h, p, c, n) && Keeps(h, h')
    ensures IsColumn(h', p, c, n)
  {
    hide Word, Keeps, IsTexts, AreWords, CT.Walked;
    match c
    case Bits(data) => MemoryKept(h, h', p, n, data);
    case Texts(bytes) =>
      var arr := Word(h.mem, p + W);
      WordKept(h, h', Grant(p, 2 * W), p + W);
      MemoryKept(h, h', p, n, arr);
      TextsKept(h, h', arr, Slots(bytes, n));
  }

  lemma DictionaryKept(h: Heap, h': Heap, p: nat, slots: nat, d: Dictionary)
    requires IsDictionary(h, p, slots, d) && Keeps(h, h')
    ensures IsDictionary(h', p, slots, d)
  {
    hide Word, Keeps, IsMemory, IsColumn, AreWords;
    var g := Grant(p - W, W + FIELDS);
    GrantKept(h, h', g);
    WordKept(h, h', g, p);
    WordKept(h, h', g, p + 8);
    WordKept(h, h', g, p + 16);
    ObjectKept(h, h', p, Fields(Word(h.mem, p), Word(h.mem, p + 8), Word(h.mem, p + 16), d));
    MemoryKept(h, h', Word(h.mem, p), d.nslots, slots);
    ColumnKept(h, h', Word(h.mem, p + 8), d.keys, d.nslots);
    ColumnKept(h, h', Word(h.mem, p + 16), d.vals, d.nslots);
  }

  lemma ObjectKept(h: Heap, h': Heap, p: nat, ws: seq<nat>)
    requires p >= W && Grant(p - W, W + FIELDS) in h.grants && Keeps(h, h') && W * |ws| == FIELDS
    requires AreWords(h.mem, p, ws)
    ensures AreWords(h'.mem, p, ws)
  {
    hide AreWords;
    assert Intact(h, h', Grant(p - W, W + FIELDS));
    WordsSame(h.mem, h'.mem, p, ws);
  }

  // ---- Memory objects and the object itself ----

  lemma MemoryEffect(h: Heap, n: nat, data: nat, base: nat)
    requires HeapOK(h) && n < Limit() && data < Limit() && Usable(h, base, 2 * W)
    requires MakeMemory(h, n, data, base).Some?
    ensures var (h', p) := MakeMemory(h, n, data, base).value;
      Extends(h, h') && IsMemory(Since(h, h'), p, n, data) && p < Limit()
  {
    hide Limit, Inv, Bump, Space, FreshBlock, GrantsApart, Clear, AreWords, Extends, PutWords;
    AllocSafe(h, 2 * W, base);
    var (h1, q) := BumpAlloc(h, 2 * W, base).value;
    assert Grant(q, 2 * W) in h1.grants;
    GrantBound(h1, Grant(q, 2 * W));
    WordsPut(h1.mem, q, [n, data]);
    AddsExtends(h, MakeMemory(h, n, data, base).value.0, q, 2 * W);
  }

  lemma ObjectEffect(h: Heap, s: nat, k: nat, v: nat, d: Dictionary, tag: nat, base: nat)
    requires HeapOK(h) && Usable(h, base, W + FIELDS) && Representable(Fields(s, k, v, d))
    requires MakeObject(h, s, k, v, d, tag, base).Some?
    ensures var (h', p) := MakeObject(h, s, k, v, d, tag, base).value;
      && Extends(h, h') && p > W && Grant(p - W, W + FIELDS) in Since(h, h').grants
      && AreWords(h'.mem, p, Fields(s, k, v, d)) && (tag < Limit() ==> Word(h'.mem, p - W) == tag)
  {
    hide Limit, Inv, Bump, Space, FreshBlock, GrantsApart, Clear, AreWords, Extends, PutWords, BytesOf;
    AllocSafe(h, W + FIELDS, base);
    var (h1, q) := BumpAlloc(h, W + FIELDS, base).value;
    assert Grant(q, W + FIELDS) in h1.grants;
    WordsPut(PutWord(h1.mem, q, tag), q + W, Fields(s, k, v, d));
    if tag < Limit() { TagLasts(h1.mem, q, tag, MakeObject(h, s, k, v, d, tag, base).value.0.mem); }
    AddsExtends(h, MakeObject(h, s, k, v, d, tag, base).value.0, q, W + FIELDS);
  }

  // ---- string columns ----

  /** The system allocator can serve the strings of the slots from i on. */
  ghost predicate ServesTexts(h: Heap, arr: nat, ts: CT.Table, i: nat, tag: nat, offers: Offers)
    requires Offering(offers)
    decreases |ts| - i
  {
    i < |ts| ==>
      && (ts[i].Some? ==> Usable(h, offers(h.arena), OVERHEAD + |ts[i].value|))
      && (match MakeText(h, ts[i], tag, offers(h.arena))
          case None => true
          case Some((h1, p)) =>
            ServesTexts(h1.(mem := PutWord(h1.mem, arr + W * i, p)), arr, ts, i + 1, tag, offers))
  }

  lemma TextEffect(h: Heap, t: Option<seq<Byte>>, tag: nat, base: nat)
    requires HeapOK(h) && Offered(base, ALIGN) && MakeText(h, t, tag, base).Some?
    requires t.Some? ==> Usable(h, base, OVERHEAD + |t.value|)
    ensures var (h', p) := MakeText(h, t, tag, base).value;
      && Extends(h, h') && IsSlot(Since(h, h'), p, t) && p < Limit()
      && (tag < Limit() ==> Tagged(Since(h, h'), p, tag))
  {
    hide HeapOK, IsString, Adds, MakeString, FreshBlock, Space, Limit, Keeps, Word;
    if t.None? {
      ExtendsSame(h);
    } else {
      MakeEffect(h, t.value, tag, base);
      var (h', p) := MakeString(h, t.value, tag, base).value;
      StringSince(h, h', p, t.value);
      StringBound(h', p, t.value);
      StringPlace(Since(h, h'), p, t.value);
    }
  }

  lemma StringPlace(h: Heap, p: nat, bs: seq<Byte>)
    requires IsString(h, p, bs)
    ensures p >= W && Grant(p - W, OVERHEAD + |bs|) in h.grants
  {
    hide Word;
  }

  lemma StringBound(h: Heap, p: nat, bs: seq<Byte>)
    requires HeapOK(h) && IsString(h, p, bs)
    ensures p < Limit()
  {
    hide HeapOK, Word, Limit, Space;
    GrantBound(h, Grant(p - 8, OVERHEAD + |bs|));
  }

  /** Half-way through a column: h1 granted the array at arr, and slots before i have been filled since. */
  ghost predicate Filling(h0: Heap, h1: Heap, h: Heap, arr: nat, ts: CT.Table, i: nat, tag: nat) {
    && HeapOK(h) && h1.grants == h0.grants + [Grant(arr, W * |ts|)] && h1.grants <= h.grants && Keeps(h0, h)
    && i <= |ts| && (forall j | 0 <= j < i :: IsSlot(Since(h1, h), Word(h.mem, arr + W * j), ts[j]))
    && (tag < Limit() ==> forall j | 0 <= j < i :: Tagged(Since(h1, h), Word(h.mem, arr + W * j), tag))
  }

  /** Writing inside one grant spares the others. */
  lemma StoreSpares(h: Heap, k: nat, a: nat, bs: seq<Byte>)
    requires HeapOK(h) && k < |h.grants|
    requires h.grants[k].addr <= a && a + |bs| <= h.grants[k].addr + h.grants[k].size
    ensures HeapOK(h.(mem := Put(h.mem, a, bs)))
    ensures forall i | 0 <= i < |h.grants| && i != k ::
      SameOn(h.mem, Put(h.mem, a, bs), h.grants[i].addr, h.grants[i].size)
  {
    hide Space;
    forall i | 0 <= i < |h.grants| && i != k ensures
      SameOn(h.mem, Put(h.mem, a, bs), h.grants[i].addr, h.grants[i].size)
    {
      var lo, hi := if i < k then i else k, if i < k then k else i;
      assert Arena.Apart(h.grants[lo].addr, h.grants[lo].size, h.grants[hi].addr, h.grants[hi].size);
      PutElsewhere(h.mem, a, bs, h.grants[i].addr, h.grants[i].size);
    }
  }

  /** The word stored for slot i. */
  lemma WordStored(h0: Heap, h1: Heap, h: Heap, arr: nat, n: nat, i: nat, p: nat)
    requires HeapOK(h) && h1.grants == h0.grants + [Grant(arr, W * n)] && h1.grants <= h.grants && i < n && p < Limit()
    ensures var h' := h.(mem := PutWord(h.mem, arr + W * i, p));
      && HeapOK(h') && (Keeps(h0, h) ==> Keeps(h0, h')) && Keeps(Since(h1, h), Since(h1, h'))
      && Word(h'.mem, arr + W * i) == p
      && forall j | 0 <= j < n && j != i :: Word(h'.mem, arr + W * j) == Word(h.mem, arr + W * j)
  {
    hide HeapOK, Word, Limit, BytesOf, SameOn, Put;
    var k, bs := |h0.grants|, BytesOf(p, W);
    var h' := h.(mem := PutWord(h.mem, arr + W * i, p));
    assert h.grants[k] == Grant(arr, W * n);
    StoreSpares(h, k, arr + W * i, bs);
    WordPut(h.mem, arr + W * i, p);
    forall j | 0 <= j < n && j != i ensures Word(h'.mem, arr + W * j) == Word(h.mem, arr + W * j) {
      WordElsewhere(h.mem, arr + W * i, p, arr + W * j);
    }
    if Keeps(h0, h) { StoreKeeps(h0, h, h', k); }
    forall g | g in Since(h1, h).grants ensures Intact(Since(h1, h), Since(h1, h'), g) {
      var j :| |h1.grants| <= j < |h.grants| && h.grants[j] == g;
      assert j != k;
    }
  }

  lemma StoreKeeps(h0: Heap, h: Heap, h': Heap, k: nat)
    requires Keeps(h0, h) && h0.grants <= h.grants && h'.grants == h.grants && |h0.grants| <= k
    requires forall i | 0 <= i < |h.grants| && i != k :: SameOn(h.mem, h'.mem, h.grants[i].addr, h.grants[i].size)
    ensures Keeps(h0, h')
  {
    forall g | g in h0.grants ensures Intact(h0, h', g) {
      assert Intact(h0, h, g);
      var i :| 0 <= i < |h0.grants| && h0.grants[i] == g;
      assert h.grants[i] == g;
      SameTrans(h0.mem, h.mem, h'.mem, g.addr, g.size);
    }
  }

  /** The string of slot i, before its pointer is stored. */
  lemma TextMade(h0: Heap, h1: Heap, h: Heap, arr: nat, ts: CT.Table, i: nat, h2: Heap, p: nat, tag: nat)
    requires Filling(h0, h1, h, arr, ts, i, tag) && i < |ts|
    requires Extends(h, h2) && IsSlot(Since(h, h2), p, ts[i])
    requires tag < Limit() ==> Tagged(Since(h, h2), p, tag)
    ensures Filling(h0, h1, h2, arr, ts, i, tag) && IsSlot(Since(h1, h2), p, ts[i])
    ensures tag < Limit() ==> Tagged(Since(h1, h2), p, tag)
  {
    hide HeapOK, Word, IsSlot, Keeps, Tagged, Limit;
    assert Keeps(h0, h2) by { KeepsTrans(h0, h, h2); }
    SinceGrows(h1, h, h2);
    SlotKept(Since(h, h2), Since(h1, h2), p, ts[i]);
    if tag < Limit() { TaggedKept(Since(h, h2), Since(h1, h2), p, tag); }
    assert h.grants[|h0.grants|] == Grant(arr, W * |ts|);
    forall j | 0 <= j < i ensures IsSlot(Since(h1, h2), Word(h2.mem, arr + W * j), ts[j]) {
      WordKept(h, h2, Grant(arr, W * |ts|), arr + W * j);
      SlotKept(Since(h1, h), Since(h1, h2), Word(h.mem, arr + W * j), ts[j]);
    }
    if tag < Limit() {
      forall j | 0 <= j < i ensures Tagged(Since(h1, h2), Word(h2.mem, arr + W * j), tag) {
        WordKept(h, h2, Grant(arr, W * |ts|), arr + W * j);
        TaggedKept(Since(h1, h), Since(h1, h2), Word(h.mem, arr + W * j), tag);
      }
    }
  }

  lemma PointerStored(h0: Heap, h1: Heap, h: Heap, arr: nat, ts: CT.Table, i: nat, p: nat, tag: nat)
    requires Filling(h0, h1, h, arr, ts, i, tag) && i < |ts| && IsSlot(Since(h1, h), p, ts[i]) && p < Limit()
    requires tag < Limit() ==> Tagged(Since(h1, h), p, tag)
    ensures Filling(h0, h1, h.(mem := PutWord(h.mem, arr + W * i, p)), arr, ts, i + 1, tag)
  {
    hide HeapOK, Word, IsSlot, Keeps, Limit, BytesOf, Put, Tagged;
    var h' := h.(mem := PutWord(h.mem, arr + W * i, p));
    WordStored(h0, h1, h, arr, |ts|, i, p);
    forall j | 0 <= j < i + 1 ensures IsSlot(Since(h1, h'), Word(h'.mem, arr + W * j), ts[j]) {
      SlotKept(Since(h1, h), Since(h1, h'), if j == i then p else Word(h.mem, arr + W * j), ts[j]);
    }
    if tag < Limit() {
      forall j | 0 <= j < i + 1 ensures Tagged(Since(h1, h'), Word(h'.mem, arr + W * j), tag) {
        TaggedKept(Since(h1, h), Since(h1, h'), if j == i then p else Word(h.mem, arr + W * j), tag);
      }
    }
  }

  lemma {:induction false} TextsFilled(h0: Heap, h1: Heap, h: Heap, arr: nat, ts: CT.Table, i: nat, tag: nat,
                                       offers: Offers)
    requires Offering(offers) && Filling(h0, h1, h, arr, ts, i, tag)
    requires ServesTexts(h, arr, ts, i, tag, offers) && MakeTexts(h, arr, ts, i, tag, offers).Some?
    ensures Filling(h0, h1, MakeTexts(h, arr, ts, i, tag, offers).value, arr, ts, |ts|, tag)
    decreases |ts| - i
  {
    hide HeapOK, Word, IsSlot, Keeps, MakeText, Usable, PutWord, Extends, Limit, Tagged;
    FillingOK(h0, h1, h, arr, ts, i, tag);
    if i < |ts| {
      TextEffect(h, ts[i], tag, offers(h.arena));
      var (h2, p) := MakeText(h, ts[i], tag, offers(h.arena)).value;
      TextMade(h0, h1, h, arr, ts, i, h2, p, tag);
      PointerStored(h0, h1, h2, arr, ts, i, p, tag);
      TextsFilled(h0, h1, h2.(mem := PutWord(h2.mem, arr + W * i, p)), arr, ts, i + 1, tag, offers);
    }
  }

  lemma FillingOK(h0: Heap, h1: Heap, h: Heap, arr: nat, ts: CT.Table, i: nat, tag: nat)
    requires Filling(h0, h1, h, arr, ts, i, tag)
    ensures HeapOK(h) && i <= |ts|
  {
    hide HeapOK, Word, IsSlot, Keeps, Tagged;
  }

  /** The array of pointers, and its strings. */
  lemma TextsEffect(h: Heap, ts: CT.Table, tag: nat, offers: Offers)
    requires HeapOK(h) && Offering(offers) && Usable(h, offers(h.arena), W * |ts|)
    requires BumpAlloc(h, W * |ts|, offers(h.arena)).Some?
    requires var (h1, arr) := BumpAlloc(h, W * |ts|, offers(h.arena)).value;
      ServesTexts(h1, arr, ts, 0, tag, offers) && MakeTexts(h1, arr, ts, 0, tag, offers).Some?
    ensures var (h1, arr) := BumpAlloc(h, W * |ts|, offers(h.arena)).value;
      var h' := MakeTexts(h1, arr, ts, 0, tag, offers).value;
      && Extends(h, h') && IsTexts(Since(h, h'), arr, ts) && arr < Limit()
      && (tag < Limit() ==> forall i | 0 <= i < |ts| :: Tagged(Since(h, h'), Word(h'.mem, arr + W * i), tag))
  {
    hide HeapOK, Word, IsSlot, Keeps, MakeTexts, Bump, FreshBlock, Space, ServesTexts, Limit, Tagged;
    var (h1, arr) := BumpAlloc(h, W * |ts|, offers(h.arena)).value;
    if ts == [] {
      AllocEmpty(h, offers(h.arena));
      SpaceTwice();
      NoTexts(h, h1, arr, tag, offers);
    } else {
      AllocSafe(h, W * |ts|, offers(h.arena));
      AllocAdds(h, h1, arr, W * |ts|);
      TextsFilled(h, h1, h1, arr, ts, 0, tag, offers);
      FilledTexts(h, h1, MakeTexts(h1, arr, ts, 0, tag, offers).value, arr, ts, tag);
    }
  }

  lemma NoTexts(h: Heap, h1: Heap, arr: nat, tag: nat, offers: Offers)
    requires Offering(offers) && HeapOK(h1) && h1.mem == h.mem && h1.grants == h.grants
    ensures MakeTexts(h1, arr, [], 0, tag, offers) == Some(h1) && Extends(h, h1) && IsTexts(Since(h, h1), arr, [])
  {
    hide HeapOK;
  }

  lemma AllocAdds(h: Heap, h1: Heap, p: nat, n: nat)
    requires HeapOK(h1) && h1.mem == h.mem && h1.grants == h.grants + [Grant(p, n)] && Clear(h, p, n) && n > 0
    ensures Keeps(h, h1)
  {
    hide HeapOK, Extends;
    AddsExtends(h, h1, p, n);
    ExtendsOK(h, h1);
  }

  lemma FilledTexts(h: Heap, h1: Heap, h': Heap, arr: nat, ts: CT.Table, tag: nat)
    requires Filling(h, h1, h', arr, ts, |ts|, tag) && ts != []
    ensures Extends(h, h') && IsTexts(Since(h, h'), arr, ts) && arr < Limit()
    ensures tag < Limit() ==> forall i | 0 <= i < |ts| :: Tagged(Since(h, h'), Word(h'.mem, arr + W * i), tag)
  {
    hide HeapOK, Word, IsSlot, Keeps, Limit, Space, Tagged;
    var g := Grant(arr, W * |ts|);
    assert h'.grants[|h.grants|] == g && Since(h, h').grants[0] == g;
    GrantBound(h', g);
    SinceLonger(h, h1, h');
    forall j | 0 <= j < |ts| ensures IsSlot(Since(h, h'), Word(h'.mem, arr + W * j), ts[j]) {
      SlotKept(Since(h1, h'), Since(h, h'), Word(h'.mem, arr + W * j), ts[j]);
    }
    if tag < Limit() {
      forall j | 0 <= j < |ts| ensures Tagged(Since(h, h'), Word(h'.mem, arr + W * j), tag) {
        TaggedKept(Since(h1, h'), Since(h, h'), Word(h'.mem, arr + W * j), tag);
      }
    }
  }

  lemma SinceLonger(h0: Heap, h1: Heap, h: Heap)
    requires h0.grants <= h1.grants <= h.grants
    ensures Keeps(Since(h1, h), Since(h0, h))
  {
    forall g | g in Since(h1, h).grants ensures Intact(Since(h1, h), Since(h0, h), g) {
      var i :| |h1.grants| <= i < |h.grants| && h.grants[i] == g;
      assert Since(h0, h).grants[i - |h0.grants|] == g;
    }
  }

  // ---- columns ----

  lemma {:induction false} WalkLength(data: seq<Byte>, p: nat, n: nat)
    requires CT.Walked(data, p, n).Some?
    ensures |CT.Walked(data, p, n).value.out| == n
    decreases n
  {
    hide CT.LengthAt;
    if n > 0 { WalkLength(data, p + CT.LEN_BYTES + CT.LengthAt(data, p), n - 1); }
  }

  /** The system allocator can serve a column, whose string data holds a table of n slots. */
  ghost predicate ServesColumn(h: Heap, c: Column, n: nat, tag: nat, offers: Offers)
    requires Offering(offers)
  {
    match c
    case Bits(data) => data < Limit() && Usable(h, offers(h.arena), 2 * W)
    case Texts(bytes) =>
      && CT.Walked(bytes, 0, n).Some? && Usable(h, offers(h.arena), W * n)
      && match BumpAlloc(h, W * n, offers(h.arena))
        case None => true
        case Some((h1, arr)) =>
          && ServesTexts(h1, arr, Slots(bytes, n), 0, tag, offers)
          && match MakeTexts(h1, arr, Slots(bytes, n), 0, tag, offers)
            case None => true
            case Some(h2) => Usable(h2, offers(h2.arena), 2 * W)
  }

  lemma ColumnEffect(h: Heap, c: Column, n: nat, tag: nat, offers: Offers)
    requires HeapOK(h) && Offering(offers) && n < Limit() && ServesColumn(h, c, n, tag, offers)
    requires MakeColumn(h, c, n, tag, offers).Some?
    ensures var (h', p) := MakeColumn(h, c, n, tag, offers).value;
      && Extends(h, h') && IsColumn(Since(h, h'), p, c, n) && p < Limit()
      && (tag < Limit() ==> ColumnTagged(Since(h, h'), p, c, n, tag))
  {
    hide HeapOK, Usable, Limit, BumpAlloc, MakeMemory, MakeTexts, ServesTexts, IsMemory, IsTexts, Extends, Word, Tagged;
    match c
    case Bits(data) => MemoryEffect(h, n, data, offers(h.arena));
    case Texts(bytes) =>
      WalkLength(bytes, 0, n);
      var (h1, arr) := BumpAlloc(h, W * n, offers(h.arena)).value;
      TextsEffect(h, Slots(bytes, n), tag, offers);
      var h2 := MakeTexts(h1, arr, Slots(bytes, n), 0, tag, offers).value;
      ExtendsOK(h, h2);
      MemoryEffect(h2, n, arr, offers(h2.arena));
      var (h3, p) := MakeMemory(h2, n, arr, offers(h2.arena)).value;
      ExtendsTrans(h, h2, h3);
      MemoryKept(Since(h2, h3), Since(h, h3), p, n, arr);
      TextsKept(Since(h, h2), Since(h, h3), arr, Slots(bytes, n));
      DataWord(Since(h, h3), p, n, arr);
      if tag < Limit() { TextsTagged(h, h2, h3, p, arr, Slots(bytes, n), n, tag); }
  }

  lemma TextsTagged(h: Heap, h2: Heap, h3: Heap, p: nat, arr: nat, ts: CT.Table, n: nat, tag: nat)
    requires Extends(h, h2) && Extends(h2, h3) && Extends(h, h3) && |ts| == n && IsTexts(Since(h, h2), arr, ts)
    requires forall i | 0 <= i < n :: Tagged(Since(h, h2), Word(h2.mem, arr + W * i), tag)
    requires Word(h3.mem, p + W) == arr
    ensures forall i | 0 <= i < n :: Tagged(Since(h, h3), SlotPointer(h3.mem, p, i), tag)
  {
    hide HeapOK, Word, Tagged, Keeps, IsSlot;
    ExtendsTrans(h, h2, h3);
    forall i | 0 <= i < n ensures Tagged(Since(h, h3), SlotPointer(h3.mem, p, i), tag) {
      WordKept(Since(h, h2), Since(h, h3), Grant(arr, W * n), arr + W * i);
      TaggedKept(Since(h, h2), Since(h, h3), Word(h2.mem, arr + W * i), tag);
    }
  }

  lemma DataWord(h: Heap, p: nat, n: nat, data: nat)
    requires IsMemory(h, p, n, data)
    ensures Word(h.mem, p) == n && Word(h.mem, p + W) == data
  {
    hide Word;
    var ws := [n, data];
    assert Word(h.mem, p + W * 0) == ws[0] && Word(h.mem, p + W * 1) == ws[1];
  }

  // ---- dictionaries ----

  /** The system allocator can serve all of a dictionary, whose counts are words. */
  ghost predicate ServesDictionary(h: Heap, slots: nat, d: Dictionary, textTag: nat, offers: Offers)
    requires Offering(offers)
  {
    && slots < Limit() && d.nslots < Limit()
    && Representable([d.ndel, d.count, d.floor, d.probe]) && Usable(h, offers(h.arena), 2 * W)
    && match MakeMemory(h, d.nslots, slots, offers(h.arena))
      case None => true
      case Some((h1, _)) =>
        && ServesColumn(h1, d.keys, d.nslots, textTag, offers)
        && match MakeColumn(h1, d.keys, d.nslots, textTag, offers)
          case None => true
          case Some((h2, _)) =>
            && ServesColumn(h2, d.vals, d.nslots, textTag, offers)
            && match MakeColumn(h2, d.vals, d.nslots, textTag, offers)
              case None => true
              case Some((h3, _)) => Usable(h3, offers(h3.arena), W + FIELDS)
  }

  /** What is built is the dictionary, all of it in regions that are new. */
  lemma DictionaryEffect(h: Heap, slots: nat, d: Dictionary, tag: nat, textTag: nat, offers: Offers)
    requires HeapOK(h) && Offering(offers) && ServesDictionary(h, slots, d, textTag, offers)
    requires MakeDictionary(h, slots, d, tag, textTag, offers).Some?
    ensures var (h', p) := MakeDictionary(h, slots, d, tag, textTag, offers).value;
      && Extends(h, h') && IsDictionary(Since(h, h'), p, slots, d)
      && p >= W && (tag < Limit() ==> Word(h'.mem, p - W) == tag)
      && (textTag < Limit() ==> TextsHaveTag(Since(h, h'), p, d, textTag))
  {
    hide HeapOK, Usable, Limit, MakeMemory, MakeColumn, MakeObject, ServesColumn, IsMemory, IsColumn, Extends,
      AreWords, Fields, Keeps, IsDictionary, ColumnTagged, TextsHaveTag, Word;
    MemoryEffect(h, d.nslots, slots, offers(h.arena));
    var (h1, s) := MakeMemory(h, d.nslots, slots, offers(h.arena)).value;
    ExtendsOK(h, h1);
    ColumnEffect(h1, d.keys, d.nslots, textTag, offers);
    var (h2, k) := MakeColumn(h1, d.keys, d.nslots, textTag, offers).value;
    ExtendsOK(h1, h2);
    ColumnEffect(h2, d.vals, d.nslots, textTag, offers);
    var (h3, v) := MakeColumn(h2, d.vals, d.nslots, textTag, offers).value;
    ExtendsOK(h2, h3);
    FieldsFit(s, k, v, d);
    ObjectEffect(h3, s, k, v, d, tag, offers(h3.arena));
    var (h4, p) := MakeObject(h3, s, k, v, d, tag, offers(h3.arena)).value;
    Assembled(h, h1, h2, h3, h4, p, s, k, v, slots, d);
    if textTag < Limit() { TagsAssembled(h, h1, h2, h3, h4, p, s, k, v, d, textTag); }
  }

  /** All strings of both columns have the tag. */
  ghost predicate TextsHaveTag(h: Heap, p: nat, d: Dictionary, tag: nat) {
    && ColumnTagged(h, Word(h.mem, p + 8), d.keys, d.nslots, tag)
    && ColumnTagged(h, Word(h.mem, p + 16), d.vals, d.nslots, tag)
  }

  lemma TagsAssembled(h: Heap, h1: Heap, h2: Heap, h3: Heap, h4: Heap, p: nat, s: nat, k: nat, v: nat, d: Dictionary,
                      tag: nat)
    requires Extends(h, h1) && Extends(h1, h2) && Extends(h2, h3) && Extends(h3, h4)
    requires IsColumn(Since(h1, h2), k, d.keys, d.nslots) && ColumnTagged(Since(h1, h2), k, d.keys, d.nslots, tag)
    requires IsColumn(Since(h2, h3), v, d.vals, d.nslots) && ColumnTagged(Since(h2, h3), v, d.vals, d.nslots, tag)
    requires AreWords(h4.mem, p, Fields(s, k, v, d))
    ensures h.grants <= h4.grants && TextsHaveTag(Since(h, h4), p, d, tag)
  {
    hide IsColumn, Extends, AreWords, Fields, Keeps, ColumnTagged, Word;
    ExtendsTrans(h2, h3, h4);
    ExtendsTrans(h1, h2, h4);
    ExtendsTrans(h, h1, h4);
    NewKeeps(h, h1, h2, h4);
    NewKeeps(h, h2, h3, h4);
    ColumnTaggedKept(Since(h1, h2), Since(h, h4), k, d.keys, d.nslots, tag);
    ColumnTaggedKept(Since(h2, h3), Since(h, h4), v, d.vals, d.nslots, tag);
    PartWords(h4.mem, p, s, k, v, d);
  }

  /** What was new between two points is new from the start to the end. */
  lemma NewKeeps(h: Heap, h1: Heap, h2: Heap, h3: Heap)
    requires h.grants <= h1.grants && Extends(h1, h2) && Extends(h2, h3)
    ensures h.grants <= h3.grants && Keeps(Since(h1, h2), Since(h, h3))
  {
    hide HeapOK, Keeps;
    ExtendsTrans(h1, h2, h3);
    SinceLonger(h, h1, h3);
    KeepsTrans(Since(h1, h2), Since(h1, h3), Since(h, h3));
  }

  lemma FieldsFit(s: nat, k: nat, v: nat, d: Dictionary)
    requires s < Limit() && k < Limit() && v < Limit() && Representable([d.ndel, d.count, d.floor, d.probe])
    ensures Representable(Fields(s, k, v, d))
  {
    hide Limit;
    var ws := [d.ndel, d.count, d.floor, d.probe];
    assert ws[0] < Limit() && ws[1] < Limit() && ws[2] < Limit() && ws[3] < Limit();
  }

  /** Each part, built in turn, lasts until the object is complete. */
  lemma Assembled(h: Heap, h1: Heap, h2: Heap, h3: Heap, h4: Heap, p: nat, s: nat, k: nat, v: nat, slots: nat,
                  d: Dictionary)
    requires Extends(h, h1) && IsMemory(Since(h, h1), s, d.nslots, slots)
    requires Extends(h1, h2) && IsColumn(Since(h1, h2), k, d.keys, d.nslots)
    requires Extends(h2, h3) && IsColumn(Since(h2, h3), v, d.vals, d.nslots)
    requires Extends(h3, h4) && p > W && Grant(p - W, W + FIELDS) in Since(h3, h4).grants
    requires AreWords(h4.mem, p, Fields(s, k, v, d))
    ensures Extends(h, h4) && IsDictionary(Since(h, h4), p, slots, d)
  {
    hide IsMemory, IsColumn, Extends, AreWords, Fields, Keeps;
    ExtendsTrans(h2, h3, h4);
    ExtendsTrans(h1, h2, h4);
    ExtendsTrans(h, h1, h4);
    MemoryKept(Since(h, h1), Since(h, h4), s, d.nslots, slots);
    ColumnKept(Since(h1, h2), Since(h1, h4), k, d.keys, d.nslots);
    ColumnKept(Since(h1, h4), Since(h, h4), k, d.keys, d.nslots);
    ColumnKept(Since(h2, h3), Since(h2, h4), v, d.vals, d.nslots);
    ColumnKept(Since(h2, h4), Since(h1, h4), v, d.vals, d.nslots);
    ColumnKept(Since(h1, h4), Since(h, h4), v, d.vals, d.nslots);
    ExtendsTrans(h1, h2, h3);
    ExtendsTrans(h, h1, h3);
    NewGrantKept(h, h3, h4, Grant(p - W, W + FIELDS));
    PartWords(h4.mem, p, s, k, v, d);
  }

  lemma NewGrantKept(h: Heap, h3: Heap, h4: Heap, g: Grant)
    requires Extends(h, h3) && Extends(h3, h4) && g in Since(h3, h4).grants
    ensures h.grants <= h4.grants && g in Since(h, h4).grants
  {
    hide Keeps, HeapOK;
    ExtendsTrans(h, h3, h4);
    GrantKept(Since(h3, h4), Since(h, h4), g);
  }

  lemma PartWords(m: Mem, p: nat, s: nat, k: nat, v: nat, d: Dictionary)
    requires AreWords(m, p, Fields(s, k, v, d))
    ensures Word(m, p) == s && Word(m, p + 8) == k && Word(m, p + 16) == v
  {
    hide Word;
    var ws := Fields(s, k, v, d);
    assert Word(m, p + W * 0) == ws[0] && Word(m, p + W * 1) == ws[1] && Word(m, p + W * 2) == ws[2];
  }

  // ---- what a program finds ----

  /** The five counters behind the three pointers: deletions, entries, age, first slot in use and longest
      probe. */
  ghost predicate CountersAre(m: Mem, p: nat, d: Dictionary) {
    && Word(m, p + 24) == d.ndel && Word(m, p + 32) == d.count && Word(m, p + 40) == 0
    && Word(m, p + 48) == d.floor && Word(m, p + 56) == d.probe
  }

  /** A Memory of n elements at data: its length, then its data pointer. */
  ghost predicate MemoryWords(m: Mem, p: nat, n: nat, data: nat) {
    Word(m, p) == n && Word(m, p + 8) == data
  }

  /** Word by word: slots, then keys, then values, then the counters. */
  lemma DictionaryWords(h: Heap, p: nat, slots: nat, d: Dictionary)
    requires IsDictionary(h, p, slots, d)
    ensures CountersAre(h.mem, p, d) && MemoryWords(h.mem, Word(h.mem, p), d.nslots, slots)
    ensures d.keys.Bits? ==> MemoryWords(h.mem, Word(h.mem, p + 8), d.nslots, d.keys.data)
    ensures d.vals.Bits? ==> MemoryWords(h.mem, Word(h.mem, p + 16), d.nslots, d.vals.data)
    ensures d.keys.Texts? ==> Word(h.mem, Word(h.mem, p + 8)) == d.nslots
    ensures d.vals.Texts? ==> Word(h.mem, Word(h.mem, p + 16)) == d.nslots
  {
    hide Word, IsTexts, CT.Walked, IsMemory;
    CounterWords(h.mem, p, Word(h.mem, p), Word(h.mem, p + 8), Word(h.mem, p + 16), d);
    DataWord(h, Word(h.mem, p), d.nslots, slots);
    ColumnWords(h, Word(h.mem, p + 8), d.keys, d.nslots);
    ColumnWords(h, Word(h.mem, p + 16), d.vals, d.nslots);
  }

  lemma CounterWords(m: Mem, p: nat, s: nat, k: nat, v: nat, d: Dictionary)
    requires AreWords(m, p, Fields(s, k, v, d))
    ensures CountersAre(m, p, d)
  {
    hide Word;
    var ws := Fields(s, k, v, d);
    assert Word(m, p + W * 3) == ws[3] && Word(m, p + W * 4) == ws[4] && Word(m, p + W * 5) == ws[5];
    assert Word(m, p + W * 6) == ws[6] && Word(m, p + W * 7) == ws[7];
  }

  lemma ColumnWords(h: Heap, p: nat, c: Column, n: nat)
    requires IsColumn(h, p, c, n)
    ensures Word(h.mem, p) == n && (c.Bits? ==> Word(h.mem, p + 8) == c.data)
  {
    hide Word, IsTexts, CT.Walked, IsMemory;
    match c
    case Bits(data) => DataWord(h, p, n, data);
    case Texts(_) => DataWord(h, p, n, Word(h.mem, p + W));
  }

  /** Slot by slot, the table's strings: null for empty slots, and for empty strings. */
  ghost predicate ColumnSlots(h: Heap, p: nat, t: CT.Table) {
    forall i | 0 <= i < |t| :: IsSlot(h, SlotPointer(h.mem, p, i), CT.Rebuilt(t[i]))
  }

  /** A column built from a serialised table, whatever follows it in the image, holds that table's strings. */
  lemma ColumnHolds(h: Heap, p: nat, t: CT.Table, rest: seq<Byte>)
    requires CT.Encodable(t) && IsColumn(h, p, Texts(CT.Serialized(t) + rest), |t|)
    ensures ColumnSlots(h, p, t)
  {
    hide Word, IsSlot, AreWords, CT.Walked, CT.Serialized, CT.Encodable, CT.Rebuilt;
    CT.RoundTrip(t, rest);
    forall i | 0 <= i < |t| ensures IsSlot(h, SlotPointer(h.mem, p, i), CT.Rebuilt(t[i])) {
      assert Slots(CT.Serialized(t) + rest, |t|)[i] == CT.Rebuilt(t[i]);
    }
  }

  /** Whichever columns were serialised from t hold it. */
  ghost predicate HoldsTable(h: Heap, p: nat, d: Dictionary, t: CT.Table, rest: seq<Byte>) {
    && (d.keys == Texts(CT.Serialized(t) + rest) ==> ColumnSlots(h, Word(h.mem, p + 8), t))
    && (d.vals == Texts(CT.Serialized(t) + rest) ==> ColumnSlots(h, Word(h.mem, p + 16), t))
  }

  lemma DictionaryHolds(h: Heap, p: nat, slots: nat, d: Dictionary, t: CT.Table, rest: seq<Byte>)
    requires IsDictionary(h, p, slots, d) && CT.Encodable(t) && d.nslots == |t|
    ensures HoldsTable(h, p, d, t, rest)
  {
    hide Word, IsColumn, IsMemory, AreWords, CT.Serialized, CT.Encodable, ColumnSlots;
    if d.keys == Texts(CT.Serialized(t) + rest) { ColumnHolds(h, Word(h.mem, p + 8), t, rest); }
    if d.vals == Texts(CT.Serialized(t) + rest) { ColumnHolds(h, Word(h.mem, p + 16), t, rest); }
  }

  // ---- nothing in it is stale ----

  ghost predicate ColumnLive(h: Heap, p: nat, c: Column, n: nat) {
    && Live(h, p)
    && (c.Texts? && n > 0 ==> Live(h, Word(h.mem, p + W)))
    && (c.Texts? ==> forall i | 0 <= i < n :: SlotPointer(h.mem, p, i) == 0 || Live(h, SlotPointer(h.mem, p, i)))
  }

  /** The object, its Memory objects, its pointer arrays and every string lie in live blocks. */
  ghost predicate DictionaryLive(h: Heap, p: nat, d: Dictionary) {
    && Live(h, p) && Live(h, Word(h.mem, p))
    && ColumnLive(h, Word(h.mem, p + 8), d.keys, d.nslots) && ColumnLive(h, Word(h.mem, p + 16), d.vals, d.nslots)
  }

  lemma SlotLive(h: Heap, p: nat, t: Option<seq<Byte>>)
    requires HeapOK(h) && IsSlot(h, p, t)
    ensures p == 0 || Live(h, p)
  {
    hide HeapOK, Word, Live;
    if t.Some? { GrantLive(h, Grant(p - 8, OVERHEAD + |t.value|), p); }
  }

  lemma ColumnIsLive(h: Heap, p: nat, c: Column, n: nat)
    requires HeapOK(h) && IsColumn(h, p, c, n)
    ensures ColumnLive(h, p, c, n)
  {
    hide HeapOK, Word, Live, AreWords, IsSlot, CT.Walked;
    GrantLive(h, Grant(p, 2 * W), p);
    if c.Texts? {
      WalkLength(c.bytes, 0, n);
      var arr, ts := Word(h.mem, p + W), Slots(c.bytes, n);
      if n > 0 { GrantLive(h, Grant(arr, W * n), arr); }
      forall i | 0 <= i < n ensures SlotPointer(h.mem, p, i) == 0 || Live(h, SlotPointer(h.mem, p, i)) {
        SlotLive(h, SlotPointer(h.mem, p, i), ts[i]);
      }
    }
  }

  lemma DictionaryIsLive(h: Heap, p: nat, slots: nat, d: Dictionary)
    requires HeapOK(h) && IsDictionary(h, p, slots, d)
    ensures DictionaryLive(h, p, d)
  {
    hide HeapOK, Word, Live, AreWords, IsColumn, ColumnLive;
    GrantLive(h, Grant(p - W, W + FIELDS), p);
    GrantLive(h, Grant(Word(h.mem, p), 2 * W), Word(h.mem, p));
    ColumnIsLive(h, Word(h.mem, p + 8), d.keys, d.nslots);
    ColumnIsLive(h, Word(h.mem, p + 16), d.vals, d.nslots);
  }
}

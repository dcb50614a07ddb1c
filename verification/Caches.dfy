/** The symbol table and the memo table for read-only data.  Both hold arena addresses, so a reset that
    kept them would leave dangling pointers; these are the invariants that rule that out. */
module Caches {
  import opened Wrappers
  import opened Words
  import opened Arena
  import opened Heap
  import opened Arrays
  import opened Strings
  import opened Dictionaries
  import AO = ArrayOps

  /** What is built from the read-only data at an address: a string, a copy of bytes, an array object whose
      elements stay where they are, or a dictionary whose slots do. */
  datatype Blob = Text(bytes: seq<Byte>) | Copy(bytes: seq<Byte>) | Table(len: int) | Dict(dict: Dictionary) {
    /** Nothing is built, and null is returned; dictionaries are not checked. */
    predicate IsNull(key: nat) { this == Copy([]) || (key == 0 && !Dict?) }

    /** The element count; negative lengths are zero. */
    function Count(): nat
      requires Table?
    {
      if len < 0 then 0 else len
    }
  }

  /** The image's read-only data: every blob has its own address, and is always requested alike. */
  type Image = map<nat, Blob>

  datatype Runtime = Runtime(h: Heap, rodata: map<nat, nat>, syms: seq<(seq<Byte>, nat)>)

  // ---- symbols ----

  /** The first entry with this name. */
  function FindSym(syms: seq<(seq<Byte>, nat)>, name: seq<Byte>, i: nat): Option<nat>
    decreases |syms| - i
  {
    if i >= |syms| then None
    else if syms[i].0 == name then Some(syms[i].1)
    else FindSym(syms, name, i + 1)
  }

  /** Tag, hash placeholder, name, terminator. */
  function SymbolMem(m: Mem, q: nat, tag: nat, name: seq<Byte>): Mem {
    Put(Put(PutWord(PutWord(m, q, tag), q + 8, 0), q + 16, name), q + 16 + |name|, [0])
  }

  function Intern(r: Runtime, name: seq<Byte>, tag: nat, base: nat): Option<(Runtime, nat)>
    requires Offered(base, ALIGN)
  {
    match FindSym(r.syms, name, 0)
    case Some(p) => Some((r, p))
    case None =>
      match BumpAlloc(r.h, OVERHEAD + |name|, base)
      case None => None
      case Some((h1, q)) =>
        Some((Runtime(h1.(mem := SymbolMem(h1.mem, q, tag, name)), r.rodata, r.syms + [(name, q + 8)]), q + 8))
  }

  // ---- memoised builders ----

  function CopyBytes(h: Heap, bs: seq<Byte>, base: nat): Option<(Heap, nat)>
    requires Offered(base, ALIGN)
  {
    match BumpAlloc(h, |bs|, base)
    case None => None
    case Some((h1, q)) => Some((h1.(mem := Put(h1.mem, q, bs)), q))
  }

  /** An array object that is its own Memory object. */
  function MakeTable(h: Heap, data: nat, n: nat, tag: nat, base: nat): Option<(Heap, nat)>
    requires Offered(base, ALIGN)
  {
    match BumpAlloc(h, HEADER + REPR, base)
    case None => None
    case Some((h1, q)) =>
      Some((h1.(mem := PutHeader(PutWord(h1.mem, q, tag), q + HEADER, data, q + HEADER, n, n)), q + HEADER))
  }

  function Build(h: Heap, key: nat, b: Blob, tag: nat, textTag: nat, offers: Offers): Option<(Heap, nat)>
    requires Offering(offers)
  {
    match b
    case Text(bs) => MakeString(h, bs, tag, offers(h.arena))
    case Copy(bs) => CopyBytes(h, bs, offers(h.arena))
    case Table(_) => MakeTable(h, key, b.Count(), tag, offers(h.arena))
    case Dict(d) => MakeDictionary(h, key, d, tag, textTag, offers)
  }

  /** A string literal or constant table; what is null is never cached. */
  function Fetch(r: Runtime, image: Image, key: nat, tag: nat, textTag: nat, offers: Offers): Option<(Runtime, nat)>
    requires Offering(offers) && key in image
  {
    if image[key].IsNull(key) then Some((r, 0))
    else if key in r.rodata then Some((r, r.rodata[key]))
    else match Build(r.h, key, image[key], tag, textTag, offers)
      case None => None
      case Some((h1, p)) => Some((Runtime(h1, r.rodata[key := p], r.syms), p))
  }

  /** Frees the arena and forgets both tables. */
  function ResetAll(r: Runtime): Runtime {
    Runtime(Heap(r.h.mem, Reset(r.h.arena).0, []), map[], [])
  }

  // ---- the invariant ----

  ghost predicate IsSymbol(h: Heap, p: nat, name: seq<Byte>) {
    && p >= 8 && Grant(p - 8, OVERHEAD + |name|) in h.grants
    && Word(h.mem, p) == 0 && Get(h.mem, p + 8, |name|) == name && h.mem(p + 8 + |name|) == 0
  }

  ghost predicate IsTable(h: Heap, p: nat, data: nat, n: nat) {
    && p >= HEADER && Grant(p - HEADER, HEADER + REPR) in h.grants
    && ElemPtr(h.mem, p) == data && MemObj(h.mem, p) == p && Length(h.mem, p) == n == Capacity(h.mem, p)
  }

  ghost predicate IsBlob(h: Heap, p: nat, key: nat, b: Blob) {
    match b
    case Text(bs) => IsString(h, p, bs)
    case Copy(bs) => Grant(p, |bs|) in h.grants && Get(h.mem, p, |bs|) == bs
    case Table(_) => IsTable(h, p, key, b.Count())
    case Dict(d) => IsDictionary(h, p, key, d)
  }

  /** A table's elements are the read-only ones, at any stride; a negative length gives none. */
  lemma TableSees(h: Heap, p: nat, key: nat, b: Blob, es: nat)
    requires b.Table? && IsBlob(h, p, key, b)
    ensures b.len >= 0 ==> Items(h.mem, p, es) == ItemsAt(h.mem, key, es, b.len)
    ensures b.len < 0 ==> Items(h.mem, p, es) == []
  {
    hide Word, Item;
  }

  /** What a program finds at p, said word by word: a string, the bytes, an array over the read-only elements
      that is empty for a negative length, or a dictionary. */
  ghost predicate Contents(h: Heap, p: nat, key: nat, b: Blob) {
    match b
    case Text(bs) => Word(h.mem, p) == |bs| && Get(h.mem, p + 8, |bs|) == bs && h.mem(p + 8 + |bs|) == 0
    case Copy(bs) => Get(h.mem, p, |bs|) == bs
    case Table(len) =>
      && Length(h.mem, p) == Capacity(h.mem, p)
      && (len >= 0 ==> Length(h.mem, p) == len) && (len < 0 ==> Length(h.mem, p) == 0)
      && ElemPtr(h.mem, p) == key && MemObj(h.mem, p) == p
    case Dict(d) => MemoryWords(h.mem, Word(h.mem, p), d.nslots, key) && CountersAre(h.mem, p, d)
  }

  lemma BlobContents(h: Heap, p: nat, key: nat, b: Blob)
    requires HeapOK(h) && IsBlob(h, p, key, b)
    ensures Contents(h, p, key, b) && p > 0
  {
    hide HeapOK, Word, IsDictionary, CountersAre, MemoryWords;
    match b
    case Text(_) =>
    case Copy(bs) => GrantBound(h, Grant(p, |bs|));
    case Table(_) =>
    case Dict(d) => DictionaryWords(h, p, key, d); DictionaryPlace(h, p, key, d);
  }

  lemma DictionaryPlace(h: Heap, p: nat, key: nat, d: Dictionary)
    requires IsDictionary(h, p, key, d)
    ensures p > 0
  {
    hide Word, IsColumn, IsMemory, AreWords;
  }

  ghost predicate SymsOK(h: Heap, syms: seq<(seq<Byte>, nat)>) {
    && (forall i | 0 <= i < |syms| :: IsSymbol(h, syms[i].1, syms[i].0))
    && (forall i, j | 0 <= i < j < |syms| :: syms[i].0 != syms[j].0 && syms[i].1 != syms[j].1)
  }

  ghost predicate RodataOK(h: Heap, rodata: map<nat, nat>, image: Image) {
    forall k | k in rodata :: k in image && IsBlob(h, rodata[k], k, image[k])
  }

  ghost predicate RuntimeOK(r: Runtime, image: Image) {
    HeapOK(r.h) && SymsOK(r.h, r.syms) && RodataOK(r.h, r.rodata, image)
  }

  // ---- nothing cached is stale ----

  /** The object, and for a dictionary everything it points to, lies in live blocks. */
  ghost predicate BlobLive(h: Heap, p: nat, b: Blob) {
    Live(h, p) && (b.Dict? ==> DictionaryLive(h, p, b.dict))
  }

  /** No cached pointer is stale, nor any pointer behind it. */
  lemma CachedLive(r: Runtime, image: Image)
    requires RuntimeOK(r, image)
    ensures forall k | k in r.rodata :: k in image && BlobLive(r.h, r.rodata[k], image[k])
    ensures forall i | 0 <= i < |r.syms| :: Live(r.h, r.syms[i].1)
  {
    hide HeapOK, Word, Live, BlobLive, IsBlob;
    forall k | k in r.rodata ensures BlobLive(r.h, r.rodata[k], image[k]) {
      BlobIsLive(r.h, r.rodata[k], k, image[k]);
    }
    forall i | 0 <= i < |r.syms| ensures Live(r.h, r.syms[i].1) {
      assert IsSymbol(r.h, r.syms[i].1, r.syms[i].0);
      GrantLive(r.h, Grant(r.syms[i].1 - 8, OVERHEAD + |r.syms[i].0|), r.syms[i].1);
    }
  }

  lemma BlobIsLive(h: Heap, p: nat, key: nat, b: Blob)
    requires HeapOK(h) && IsBlob(h, p, key, b)
    ensures BlobLive(h, p, b)
  {
    hide HeapOK, Word, Live, IsDictionary, ColumnLive;
    match b
    case Text(bs) => GrantLive(h, Grant(p - 8, OVERHEAD + |bs|), p);
    case Copy(bs) => GrantBound(h, Grant(p, |bs|)); GrantLive(h, Grant(p, |bs|), p);
    case Table(_) => GrantLive(h, Grant(p - HEADER, HEADER + REPR), p);
    case Dict(d) => DictionaryIsLive(h, p, key, d);
  }

  // ---- what keeps the heap's grants keeps the tables ----

  lemma SymbolKept(h: Heap, h': Heap, p: nat, name: seq<Byte>)
    requires IsSymbol(h, p, name) && Keeps(h, h')
    ensures IsSymbol(h', p, name)
  {
    hide Word;
    assert Intact(h, h', Grant(p - 8, OVERHEAD + |name|));
    assert SameOn(h.mem, h'.mem, p, W);
    WordSame(h.mem, h'.mem, p);
    GetSame(h.mem, h'.mem, p + 8, |name|);
  }

  lemma TableKept(h: Heap, h': Heap, p: nat, data: nat, n: nat)
    requires IsTable(h, p, data, n) && Keeps(h, h')
    ensures IsTable(h', p, data, n)
  {
    hide Word;
    assert Intact(h, h', Grant(p - HEADER, HEADER + REPR));
    HeaderSame(h.mem, h'.mem, p);
  }

  lemma CopyKept(h: Heap, h': Heap, p: nat, bs: seq<Byte>)
    requires Grant(p, |bs|) in h.grants && Get(h.mem, p, |bs|) == bs && Keeps(h, h')
    ensures Grant(p, |bs|) in h'.grants && Get(h'.mem, p, |bs|) == bs
  {
    assert Intact(h, h', Grant(p, |bs|));
    GetSame(h.mem, h'.mem, p, |bs|);
  }

  lemma BlobKept(h: Heap, h': Heap, p: nat, key: nat, b: Blob)
    requires IsBlob(h, p, key, b) && Keeps(h, h')
    ensures IsBlob(h', p, key, b)
  {
    hide Word, IsString, IsTable, IsDictionary, Keeps;
    match b
    case Text(bs) => StringKept(h, h', p, bs);
    case Copy(bs) => CopyKept(h, h', p, bs);
    case Table(_) => TableKept(h, h', p, key, b.Count());
    case Dict(d) => DictionaryKept(h, h', p, key, d);
  }

  lemma TablesKept(h: Heap, h': Heap, rodata: map<nat, nat>, syms: seq<(seq<Byte>, nat)>, image: Image)
    requires SymsOK(h, syms) && RodataOK(h, rodata, image) && Keeps(h, h')
    ensures SymsOK(h', syms) && RodataOK(h', rodata, image)
  {
    hide IsSymbol, IsBlob, Keeps;
    forall i | 0 <= i < |syms| ensures IsSymbol(h', syms[i].1, syms[i].0) {
      SymbolKept(h, h', syms[i].1, syms[i].0);
    }
    forall k | k in rodata ensures IsBlob(h', rodata[k], k, image[k]) { BlobKept(h, h', rodata[k], k, image[k]); }
  }

  /** One symbol more. */
  lemma SymsGrow(h: Heap, syms: seq<(seq<Byte>, nat)>, name: seq<Byte>, p: nat)
    requires SymsOK(h, syms) && IsSymbol(h, p, name)
    requires forall i | 0 <= i < |syms| :: syms[i].0 != name && syms[i].1 != p
    ensures SymsOK(h, syms + [(name, p)])
  {
    hide IsSymbol;
  }

  // ---- interning ----

  lemma {:induction false} FindSymFinds(syms: seq<(seq<Byte>, nat)>, name: seq<Byte>, i: nat)
    ensures match FindSym(syms, name, i)
      case Some(p) => exists k :: i <= k < |syms| && syms[k] == (name, p)
      case None => forall k | i <= k < |syms| :: syms[k].0 != name
    decreases |syms| - i
  {
    if i < |syms| && syms[i].0 != name { FindSymFinds(syms, name, i + 1); }
    else if i < |syms| { assert syms[i] == (name, syms[i].1); }
  }

  lemma SymbolWritten(m: Mem, q: nat, tag: nat, name: seq<Byte>)
    ensures var m' := SymbolMem(m, q, tag, name);
      && Word(m', q + 8) == 0 && Get(m', q + 16, |name|) == name && m'(q + 16 + |name|) == 0
      && (tag < Limit() ==> Word(m', q) == tag)
      && forall x: nat | !(q <= x < q + OVERHEAD + |name|) :: m'(x) == m(x)
  {
    hide Limit, Word, BytesOf;
    var m0 := PutWord(m, q, tag);
    var m1 := PutWord(m0, q + 8, 0);
    var m2 := Put(m1, q + 16, name);
    var m' := SymbolMem(m, q, tag, name);
    WordPut(m0, q + 8, 0);
    PutElsewhere(m1, q + 16, name, q + 8, W);
    PutElsewhere(m2, q + 16 + |name|, [0], q + 8, W);
    SameTrans(m1, m2, m', q + 8, W);
    WordSame(m1, m', q + 8);
    GetPut(m1, q + 16, name);
    PutElsewhere(m2, q + 16 + |name|, [0], q + 16, |name|);
    GetSame(m2, m', q + 16, |name|);
    if tag < Limit() { TagLasts(m, q, tag, m'); }
  }

  lemma NewSymbol(h: Heap, name: seq<Byte>, tag: nat, base: nat)
    requires HeapOK(h) && Usable(h, base, OVERHEAD + |name|) && BumpAlloc(h, OVERHEAD + |name|, base).Some?
    ensures var (h1, q) := BumpAlloc(h, OVERHEAD + |name|, base).value;
      var h' := h1.(mem := SymbolMem(h1.mem, q, tag, name));
      && Extends(h, h') && IsSymbol(Since(h, h'), q + 8, name) && (tag < Limit() ==> Word(h'.mem, q) == tag)
  {
    hide Limit, Word, Inv, SymbolMem, Bump, Space, FreshBlock, GrantsApart, Clear, Extends;
    AllocSafe(h, OVERHEAD + |name|, base);
    var (h1, q) := BumpAlloc(h, OVERHEAD + |name|, base).value;
    SymbolWritten(h1.mem, q, tag, name);
    AddsExtends(h, h1.(mem := SymbolMem(h1.mem, q, tag, name)), q, OVERHEAD + |name|);
  }

  /** Interning finds the name, or adds it as a new symbol. */
  lemma InternStep(r: Runtime, name: seq<Byte>, tag: nat, base: nat)
    requires HeapOK(r.h) && Usable(r.h, base, OVERHEAD + |name|) && Intern(r, name, tag, base).Some?
    ensures var (r', p) := Intern(r, name, tag, base).value;
      if FindSym(r.syms, name, 0).Some? then r' == r && (name, p) in r.syms
      else
        && Extends(r.h, r'.h) && r'.rodata == r.rodata && r'.syms == r.syms + [(name, p)]
        && IsSymbol(Since(r.h, r'.h), p, name) && (forall i | 0 <= i < |r.syms| :: r.syms[i].0 != name)
        && p >= 8 && (tag < Limit() ==> Word(r'.h.mem, p - 8) == tag)
  {
    hide Limit, Word, HeapOK, SymbolMem, BumpAlloc, Space, FreshBlock, IsSymbol, Extends;
    FindSymFinds(r.syms, name, 0);
    if FindSym(r.syms, name, 0).None? { NewSymbol(r.h, name, tag, base); }
  }

  /** A new symbol is at no old symbol's address. */
  lemma NewAddress(h: Heap, h': Heap, syms: seq<(seq<Byte>, nat)>, p: nat, name: seq<Byte>)
    requires Extends(h, h') && SymsOK(h, syms) && IsSymbol(Since(h, h'), p, name)
    ensures forall i | 0 <= i < |syms| :: syms[i].1 != p
  {
    hide HeapOK, Word, Keeps;
    forall i | 0 <= i < |syms| ensures syms[i].1 != p {
      assert IsSymbol(h, syms[i].1, syms[i].0);
      NewElsewhere(h, h', Grant(syms[i].1 - 8, OVERHEAD + |syms[i].0|), Grant(p - 8, OVERHEAD + |name|));
    }
  }

  /** An interned name is in the table at the address returned, and the table only grows. */
  lemma InternOK(r: Runtime, image: Image, name: seq<Byte>, tag: nat, base: nat)
    requires RuntimeOK(r, image) && Usable(r.h, base, OVERHEAD + |name|) && Intern(r, name, tag, base).Some?
    ensures var (r', p) := Intern(r, name, tag, base).value;
      && RuntimeOK(r', image) && r.syms <= r'.syms && r'.rodata == r.rodata && (name, p) in r'.syms
  {
    hide HeapOK, Intern, FreshBlock, Space, SymsOK, RodataOK, IsSymbol, Extends;
    InternStep(r, name, tag, base);
    var (r', p) := Intern(r, name, tag, base).value;
    if FindSym(r.syms, name, 0).None? {
      ExtendsOK(r.h, r'.h);
      TablesKept(r.h, r'.h, r.rodata, r.syms, image);
      NewAddress(r.h, r'.h, r.syms, p, name);
      SinceKeeps(r.h, r'.h);
      SymbolKept(Since(r.h, r'.h), r'.h, p, name);
      SymsGrow(r'.h, r.syms, name, p);
    }
  }

  // ---- memoisation ----

  lemma CopyEffect(h: Heap, bs: seq<Byte>, base: nat)
    requires HeapOK(h) && |bs| > 0 && Usable(h, base, |bs|) && CopyBytes(h, bs, base).Some?
    ensures var (h', p) := CopyBytes(h, bs, base).value;
      Extends(h, h') && Grant(p, |bs|) in Since(h, h').grants && Get(h'.mem, p, |bs|) == bs
  {
    hide Limit, Inv, Bump, Space, FreshBlock, GrantsApart, Clear, Extends;
    AllocSafe(h, |bs|, base);
    var (h1, q) := BumpAlloc(h, |bs|, base).value;
    GetPut(h1.mem, q, bs);
    AddsExtends(h, h1.(mem := Put(h1.mem, q, bs)), q, |bs|);
  }

  lemma TableEffect(h: Heap, data: nat, n: nat, tag: nat, base: nat)
    requires HeapOK(h) && data < Limit() && n < Limit() && Usable(h, base, HEADER + REPR)
    requires MakeTable(h, data, n, tag, base).Some?
    ensures var (h', p) := MakeTable(h, data, n, tag, base).value;
      && Extends(h, h') && IsTable(Since(h, h'), p, data, n)
      && p >= HEADER && (tag < Limit() ==> Word(h'.mem, p - HEADER) == tag)
  {
    hide Limit, Inv, Bump, Space, FreshBlock, GrantsApart, Clear, Word, PutHeader, PutWord, Extends;
    AllocSafe(h, HEADER + REPR, base);
    var (h1, q) := BumpAlloc(h, HEADER + REPR, base).value;
    assert Grant(q, HEADER + REPR) in h1.grants;
    GrantBound(h1, Grant(q, HEADER + REPR));
    HeaderPut(PutWord(h1.mem, q, tag), q + HEADER, data, q + HEADER, n, n);
    AO.TagAndHeader(h1.mem, q, tag, data, q + HEADER, n);
    if tag < Limit() { AO.TagWord(h1.mem, q, tag, data, q + HEADER, n); }
    AddsExtends(h, MakeTable(h, data, n, tag, base).value.0, q, HEADER + REPR);
  }

  /** The allocator can serve a blob, whose addresses and counts are user addresses and counts. */
  ghost predicate Buildable(h: Heap, key: nat, b: Blob, textTag: nat, offers: Offers)
    requires Offering(offers)
  {
    match b
    case Text(bs) => Usable(h, offers(h.arena), OVERHEAD + |bs|)
    case Copy(bs) => Usable(h, offers(h.arena), |bs|)
    case Table(_) => key < Limit() && b.Count() < Limit() && Usable(h, offers(h.arena), HEADER + REPR)
    case Dict(d) => ServesDictionary(h, key, d, textTag, offers)
  }

  /** What is built has the blob's contents, in regions that are new. */
  lemma BuildEffect(h: Heap, key: nat, b: Blob, tag: nat, textTag: nat, offers: Offers)
    requires HeapOK(h) && Offering(offers) && !b.IsNull(key) && Buildable(h, key, b, textTag, offers)
    requires Build(h, key, b, tag, textTag, offers).Some?
    ensures var (h', p) := Build(h, key, b, tag, textTag, offers).value;
      && Extends(h, h') && IsBlob(Since(h, h'), p, key, b)
      && (!b.Copy? && tag < Limit() ==> p >= 8 && Word(h'.mem, p - 8) == tag)
      && (b.Dict? && textTag < Limit() ==> TextsHaveTag(Since(h, h'), p, b.dict, textTag))
  {
    hide HeapOK, Usable, Limit, MakeString, CopyBytes, MakeTable, MakeDictionary, IsString, IsTable, IsDictionary,
      Adds, ServesDictionary, Keeps, TextsHaveTag, Word;
    match b
    case Text(bs) =>
      MakeEffect(h, bs, tag, offers(h.arena));
      var (h', p) := MakeString(h, bs, tag, offers(h.arena)).value;
      StringSince(h, h', p, bs);
    case Copy(bs) => CopyEffect(h, bs, offers(h.arena));
    case Table(_) => TableEffect(h, key, b.Count(), tag, offers(h.arena));
    case Dict(d) => DictionaryEffect(h, key, d, tag, textTag, offers);
  }

  /** Fetching finds the constant, or builds it and remembers it. */
  lemma FetchStep(r: Runtime, image: Image, key: nat, tag: nat, textTag: nat, offers: Offers)
    requires HeapOK(r.h) && Offering(offers) && key in image && !image[key].IsNull(key)
    requires Buildable(r.h, key, image[key], textTag, offers) && Fetch(r, image, key, tag, textTag, offers).Some?
    ensures var (r', p) := Fetch(r, image, key, tag, textTag, offers).value;
      if key in r.rodata then r' == r && p == r.rodata[key]
      else
        && Extends(r.h, r'.h) && r'.syms == r.syms && r'.rodata == r.rodata[key := p]
        && IsBlob(Since(r.h, r'.h), p, key, image[key])
        && (!image[key].Copy? && tag < Limit() ==> p >= 8 && Word(r'.h.mem, p - 8) == tag)
        && (image[key].Dict? && textTag < Limit() ==> TextsHaveTag(Since(r.h, r'.h), p, image[key].dict, textTag))
  {
    hide HeapOK, Build, Buildable, IsBlob, Extends;
    if key !in r.rodata { BuildEffect(r.h, key, image[key], tag, textTag, offers); }
  }

  /** A fetched constant has its blob's contents, is remembered, and is not built again. */
  lemma FetchOK(r: Runtime, image: Image, key: nat, tag: nat, textTag: nat, offers: Offers)
    requires RuntimeOK(r, image) && Offering(offers) && key in image && !image[key].IsNull(key)
    requires Buildable(r.h, key, image[key], textTag, offers) && Fetch(r, image, key, tag, textTag, offers).Some?
    ensures var (r', p) := Fetch(r, image, key, tag, textTag, offers).value;
      && RuntimeOK(r', image) && r'.syms == r.syms
      && key in r'.rodata && r'.rodata[key] == p && IsBlob(r'.h, p, key, image[key])
      && (forall k | k in r.rodata :: k in r'.rodata && r'.rodata[k] == r.rodata[k])
      && (key in r.rodata ==> r' == r)
  {
    hide HeapOK, Fetch, Buildable, SymsOK, IsBlob, Extends;
    FetchStep(r, image, key, tag, textTag, offers);
    var (r', p) := Fetch(r, image, key, tag, textTag, offers).value;
    if key !in r.rodata {
      ExtendsOK(r.h, r'.h);
      TablesKept(r.h, r'.h, r.rodata, r.syms, image);
      SinceKeeps(r.h, r'.h);
      BlobKept(Since(r.h, r'.h), r'.h, p, key, image[key]);
    }
  }

  /** When nothing is built: at address zero, except for a dictionary, and for a copy of no bytes. */
  predicate Nothing(key: nat, b: Blob) {
    match b
    case Text(_) => key == 0
    case Copy(bs) => key == 0 || |bs| == 0
    case Table(_) => key == 0
    case Dict(_) => false
  }

  /** A fetch returns null exactly when nothing is built, and then changes nothing; otherwise the object it
      returns, new or not, has the blob's contents. */
  lemma FetchReturns(r: Runtime, image: Image, key: nat, tag: nat, textTag: nat, offers: Offers)
    requires RuntimeOK(r, image) && Offering(offers) && key in image
    requires !Nothing(key, image[key]) ==> Buildable(r.h, key, image[key], textTag, offers)
    requires Fetch(r, image, key, tag, textTag, offers).Some?
    ensures var (r', p) := Fetch(r, image, key, tag, textTag, offers).value;
      && (p == 0 <==> Nothing(key, image[key]))
      && (if p == 0 then r' == r else Contents(r'.h, p, key, image[key]))
  {
    hide HeapOK, Build, Buildable, SymsOK, RodataOK, IsBlob, Contents;
    if !Nothing(key, image[key]) {
      FetchOK(r, image, key, tag, textTag, offers);
      var (r', p) := Fetch(r, image, key, tag, textTag, offers).value;
      BlobContents(r'.h, p, key, image[key]);
    }
  }

  // ---- operations ----

  datatype Op =
    | Symbol(name: seq<Byte>, tag: nat, base: nat)
    | Constant(key: nat, tag: nat, textTag: nat, offers: Offers)
    | Scratch(data: seq<Byte>, base: nat)
    | Clean

  ghost predicate Allowed(r: Runtime, image: Image, op: Op) {
    match op
    case Symbol(name, _, base) => Usable(r.h, base, OVERHEAD + |name|)
    case Constant(key, _, textTag, offers) => key in image && Offering(offers) &&
        (!image[key].IsNull(key) ==> Buildable(r.h, key, image[key], textTag, offers))
    case Scratch(data, base) => |data| > 0 && Usable(r.h, base, |data|)
    case Clean => true
  }

  /** The new state and the address returned; scratch allocations stand for objects the model has no
      contents for. */
  ghost function Do(r: Runtime, image: Image, op: Op): Option<(Runtime, nat)>
    requires Allowed(r, image, op)
  {
    match op
    case Symbol(name, tag, base) => Intern(r, name, tag, base)
    case Constant(key, tag, textTag, offers) => Fetch(r, image, key, tag, textTag, offers)
    case Scratch(data, base) =>
      (match CopyBytes(r.h, data, base) case None => None case Some((h1, p)) => Some((r.(h := h1), p)))
    case Clean => Some((ResetAll(r), 0))
  }

  /** Nothing is forgotten except by a reset. */
  ghost predicate Remembers(r: Runtime, r': Runtime) {
    r.syms <= r'.syms && forall k | k in r.rodata :: k in r'.rodata && r'.rodata[k] == r.rodata[k]
  }

  lemma CleanOK(r: Runtime, image: Image)
    requires HeapOK(r.h)
    ensures RuntimeOK(ResetAll(r), image)
  {
    hide Space;
    ResetFrees(r.h.arena, r.h.grants);
  }

  lemma SymUnique(h: Heap, syms: seq<(seq<Byte>, nat)>, a: seq<Byte>, p: nat, b: seq<Byte>, q: nat)
    requires SymsOK(h, syms) && (a, p) in syms && (b, q) in syms
    ensures a == b <==> p == q
  {
    hide IsSymbol;
    var i :| 0 <= i < |syms| && syms[i] == (a, p);
    var j :| 0 <= j < |syms| && syms[j] == (b, q);
    if i < j { assert syms[i].0 != syms[j].0; } else if j < i { assert syms[j].0 != syms[i].0; }
  }
}

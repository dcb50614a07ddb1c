/** Structs and tuples in memory.  A store writes the whole register, however narrow the field is in
    memory; a load reads the field's memory width.  Fields are stored in order of their offsets. */
module FieldMemory {
  import opened Words
  import opened RegisterStructs

  type Byte = b: nat | b < 256

  // ---- bytes of a value ----

  function ByteOf(v: nat, i: nat): Byte {
    Pow2Is256();
    Extract(v, 8 * i, 8)
  }

  lemma Pow2Is256()
    ensures Pow2(8) == 256
  {
    assert Pow2(4) == 16;
    Pow2Add(4, 4);
  }

  /** Little-endian. */
  function Load(mem: seq<Byte>, off: nat, n: nat): nat
    requires off + n <= |mem|
    decreases n
  {
    if n == 0 then 0 else mem[off] + 256 * Load(mem, off + 1, n - 1)
  }

  function Stored(mem: seq<Byte>, off: nat, n: nat, v: nat, i: nat): Byte
    requires i < |mem|
  {
    if off <= i < off + n then ByteOf(v, i - off) else mem[i]
  }

  function Store(mem: seq<Byte>, off: nat, n: nat, v: nat): (r: seq<Byte>)
    requires off + n <= |mem|
    ensures |r| == |mem|
  {
    seq(|mem|, i requires 0 <= i < |mem| => Stored(mem, off, n, v, i))
  }

  lemma NextByte(v: nat, i: nat)
    ensures ByteOf(v, i + 1) == ByteOf(v / 256, i)
  {
    hide Pow2;
    Pow2Is256();
    Pow2Add(8, 8 * i);
    DivTwice(v, 256, Pow2(8 * i));
  }

  lemma DivTwice(v: nat, a: nat, b: nat)
    requires a > 0 && b > 0
    ensures a * b > 0 && (v / a) / b == v / (a * b)
  {
    var q, r := v / a, v % a;
    assert v == q * a + r;
    var s, t := q / b, q % b;
    assert q == s * b + t;
    assert q * a == s * (a * b) + t * a;
    MulMono(t + 1, b, a);
    assert (t + 1) * a == t * a + a;
    MulNonNeg(t, a);
    MulMono(1, b, a);
    ModUnique(v, a * b, s, t * a + r);
  }

  lemma ByteZero(v: nat)
    ensures ByteOf(v, 0) == v % 256
  {
    Pow2Is256();
    assert Pow2(0) == 1 && v / 1 == v;
  }

  lemma ModSplit(v: nat, m: nat)
    requires m > 0
    ensures v % (256 * m) == v % 256 + 256 * ((v / 256) % m)
  {
    var q, r := v / 256, v % 256;
    var s, t := q / m, q % m;
    assert q == s * m + t;
    assert v == s * (256 * m) + (r + 256 * t);
    ModUnique(v, 256 * m, s, r + 256 * t);
  }

  /** Bytes of v, read back. */
  lemma {:induction false} LoadBytes(mem: seq<Byte>, off: nat, n: nat, v: nat)
    requires off + n <= |mem| && forall i | 0 <= i < n :: mem[off + i] == ByteOf(v, i)
    ensures Load(mem, off, n) == v % Pow2(8 * n)
    decreases n
  {
    hide ByteOf;
    if n == 0 {
      assert Pow2(0) == 1;
    } else {
      forall i | 0 <= i < n - 1 ensures mem[off + 1 + i] == ByteOf(v / 256, i) {
        assert mem[off + (i + 1)] == ByteOf(v, i + 1);
        NextByte(v, i);
      }
      LoadBytes(mem, off + 1, n - 1, v / 256);
      assert mem[off + 0] == ByteOf(v, 0);
      ByteZero(v);
      PowByte(n);
      ModSplit(v, Pow2(8 * (n - 1)));
    }
  }

  lemma PowByte(n: nat)
    requires n > 0
    ensures Pow2(8 * n) == 256 * Pow2(8 * (n - 1))
  {
    hide Pow2;
    Pow2Is256();
    Pow2Add(8, 8 * (n - 1));
    assert 8 * n == 8 + 8 * (n - 1);
  }

  lemma {:induction false} LoadFrame(a: seq<Byte>, b: seq<Byte>, off: nat, n: nat)
    requires off + n <= |a| && off + n <= |b| && forall i | off <= i < off + n :: a[i] == b[i]
    ensures Load(a, off, n) == Load(b, off, n)
    decreases n
  {
    if n > 0 { LoadFrame(a, b, off + 1, n - 1); }
  }

  lemma {:induction false} LoadNonZero(mem: seq<Byte>, off: nat, n: nat, i: nat)
    requires off + n <= |mem| && i < n && mem[off + i] != 0
    ensures Load(mem, off, n) != 0
    decreases n
  {
    if i > 0 { LoadNonZero(mem, off + 1, n - 1, i - 1); }
  }

  lemma {:induction false} LoadZero(mem: seq<Byte>, off: nat, n: nat)
    requires off + n <= |mem| && forall i | off <= i < off + n :: mem[i] == 0
    ensures Load(mem, off, n) == 0
    decreases n
  {
    if n > 0 { LoadZero(mem, off + 1, n - 1); }
  }

  // ---- fields ----

  /** reg bytes are stored at off, of which load are read back. */
  datatype Slot = Slot(off: nat, reg: nat, load: nat)

  predicate Inside(slots: seq<Slot>, size: nat) {
    forall i | 0 <= i < |slots| :: slots[i].off + slots[i].reg <= size && slots[i].load <= slots[i].reg
  }

  /** Stores fields i, i + 1, ... */
  function Construct(mem: seq<Byte>, slots: seq<Slot>, vals: seq<nat>, i: nat): (r: seq<Byte>)
    requires Inside(slots, |mem|) && |vals| == |slots| && i <= |slots|
    ensures |r| == |mem|
    decreases |slots| - i
  {
    if i == |slots| then mem
    else Construct(Store(mem, slots[i].off, slots[i].reg, vals[i]), slots, vals, i + 1)
  }

  /** One store instruction. */
  method StoreRegister(a: array<Byte>, off: nat, n: nat, v: nat)
    requires off + n <= a.Length
    modifies a
    ensures a[..] == Store(old(a[..]), off, n, v)
  {
    for i := 0 to n
      invariant forall j | 0 <= j < a.Length ::
        a[j] == if off <= j < off + i then ByteOf(v, j - off) else old(a[j])
    {
      a[off + i] := ByteOf(v, i);
    }
  }

  /** The emitted construction: one store a field, in order. */
  method ConstructInPlace(a: array<Byte>, slots: seq<Slot>, vals: seq<nat>)
    requires Inside(slots, a.Length) && |vals| == |slots|
    modifies a
    ensures a[..] == Construct(old(a[..]), slots, vals, 0)
  {
    for i := 0 to |slots|
      invariant Construct(a[..], slots, vals, i) == Construct(old(a[..]), slots, vals, 0)
    {
      StoreRegister(a, slots[i].off, slots[i].reg, vals[i]);
    }
  }

  predicate Covers(s: Slot, a: nat) {
    s.off <= a < s.off + s.reg
  }

  predicate Reads(s: Slot, a: nat) {
    s.off <= a < s.off + s.load
  }

  /** No field stored after k writes a byte that k's load reads. */
  ghost predicate Unclobbered(slots: seq<Slot>, k: nat)
    requires k < |slots|
  {
    forall j, a: nat | k < j < |slots| && Reads(slots[k], a) :: !Covers(slots[j], a)
  }

  lemma {:induction false} ConstructFrame(mem: seq<Byte>, slots: seq<Slot>, vals: seq<nat>, i: nat, a: nat)
    requires Inside(slots, |mem|) && |vals| == |slots| && i <= |slots| && a < |mem|
    requires forall j | i <= j < |slots| :: !Covers(slots[j], a)
    ensures Construct(mem, slots, vals, i)[a] == mem[a]
    decreases |slots| - i
  {
    hide ByteOf;
    if i < |slots| {
      ConstructFrame(Store(mem, slots[i].off, slots[i].reg, vals[i]), slots, vals, i + 1, a);
    }
  }

  lemma {:induction false} ConstructFrom(mem: seq<Byte>, slots: seq<Slot>, vals: seq<nat>, i: nat, k: nat)
    returns (m: seq<Byte>)
    requires Inside(slots, |mem|) && |vals| == |slots| && i <= k < |slots|
    ensures |m| == |mem|
    ensures Construct(mem, slots, vals, i)
      == Construct(Store(m, slots[k].off, slots[k].reg, vals[k]), slots, vals, k + 1)
    decreases k - i
  {
    hide Store;
    m := mem;
    if i < k { m := ConstructFrom(Store(mem, slots[i].off, slots[i].reg, vals[i]), slots, vals, i + 1, k); }
  }

  lemma UnclobberedAt(slots: seq<Slot>, k: nat, a: nat)
    requires k < |slots| && Unclobbered(slots, k) && Reads(slots[k], a)
    ensures forall j | k < j < |slots| :: !Covers(slots[j], a)
  {
  }

  lemma FieldByte(mem: seq<Byte>, slots: seq<Slot>, vals: seq<nat>, k: nat, i: nat)
    requires Inside(slots, |mem|) && |vals| == |slots| && k < |slots| && Unclobbered(slots, k) && i < slots[k].load
    ensures Construct(mem, slots, vals, 0)[slots[k].off + i] == ByteOf(vals[k], i)
  {
    hide ByteOf, Construct, Store, Unclobbered, Covers;
    var s := slots[k];
    var m := ConstructFrom(mem, slots, vals, 0, k);
    UnclobberedAt(slots, k, s.off + i);
    ConstructFrame(Store(m, s.off, s.reg, vals[k]), slots, vals, k + 1, s.off + i);
    StoredByte(m, s.off, s.reg, vals[k], i);
  }

  lemma FieldReads(mem: seq<Byte>, slots: seq<Slot>, vals: seq<nat>, k: nat)
    requires Inside(slots, |mem|) && |vals| == |slots| && k < |slots| && Unclobbered(slots, k)
    ensures Load(Construct(mem, slots, vals, 0), slots[k].off, slots[k].load) == vals[k] % Pow2(8 * slots[k].load)
  {
    hide ByteOf, Load, Construct, Pow2, Unclobbered;
    var r := Construct(mem, slots, vals, 0);
    forall i | 0 <= i < slots[k].load ensures r[slots[k].off + i] == ByteOf(vals[k], i) {
      FieldByte(mem, slots, vals, k, i);
    }
    LoadBytes(r, slots[k].off, slots[k].load, vals[k]);
  }

  lemma StoredByte(mem: seq<Byte>, off: nat, n: nat, v: nat, i: nat)
    requires off + n <= |mem| && i < n
    ensures Store(mem, off, n, v)[off + i] == ByteOf(v, i)
  {
    hide ByteOf;
  }

  // ---- exactly when ----

  /** A register of ones. */
  function Ones(n: nat): nat { Pow2(8 * n) - 1 }

  lemma {:induction false} OnesByte(n: nat, i: nat)
    requires i < n
    ensures ByteOf(Ones(n), i) == 255
    decreases n
  {
    hide ByteOf;
    PowByte(n);
    var m := Pow2(8 * (n - 1));
    assert Ones(n) == 256 * (m - 1) + 255;
    ModUnique(Ones(n), 256, m - 1, 255);
    if i == 0 { ByteZero(Ones(n)); } else { NextByte(Ones(n), i - 1); OnesByte(n - 1, i - 1); }
  }

  /** Zero for field k, ones for all others. */
  function Probe(slots: seq<Slot>, k: nat): (v: seq<nat>)
    ensures |v| == |slots|
  {
    seq(|slots|, i requires 0 <= i < |slots| => if i == k then 0 else Ones(slots[i].reg))
  }

  lemma {:induction false} ProbeByte(mem: seq<Byte>, slots: seq<Slot>, k: nat, i: nat, a: nat)
    requires Inside(slots, |mem|) && i <= |slots| && (k < i || k >= |slots|) && a < |mem|
    requires mem[a] == 255 || exists j :: i <= j < |slots| && Covers(slots[j], a)
    ensures Construct(mem, slots, Probe(slots, k), i)[a] == 255
    decreases |slots| - i
  {
    hide ByteOf, Ones;
    if i < |slots| {
      var s := slots[i];
      var m := Store(mem, s.off, s.reg, Probe(slots, k)[i]);
      if Covers(s, a) { OnesByte(s.reg, a - s.off); }
      ProbeByte(m, slots, k, i + 1, a);
    }
  }

  /** Field k comes back, whatever the fields and the memory hold. */
  ghost predicate Survives(slots: seq<Slot>, size: nat, k: nat)
    requires Inside(slots, size) && k < |slots|
  {
    forall mem: seq<Byte>, vals: seq<nat> | |mem| == size && |vals| == |slots| :: ReadsBack(mem, slots, vals, k)
  }

  predicate ReadsBack(mem: seq<Byte>, slots: seq<Slot>, vals: seq<nat>, k: nat)
    requires Inside(slots, |mem|) && |vals| == |slots| && k < |slots|
  {
    Load(Construct(mem, slots, vals, 0), slots[k].off, slots[k].load) == vals[k] % Pow2(8 * slots[k].load)
  }

  lemma ProbeFails(mem: seq<Byte>, slots: seq<Slot>, k: nat, j: nat, a: nat)
    requires Inside(slots, |mem|) && k < j < |slots| && Reads(slots[k], a) && Covers(slots[j], a)
    ensures !ReadsBack(mem, slots, Probe(slots, k), k)
  {
    hide ByteOf, Load, Pow2, Store, Ones;
    var vals := Probe(slots, k);
    var m := ConstructFrom(mem, slots, vals, 0, k);
    var m1 := Store(m, slots[k].off, slots[k].reg, vals[k]);
    ProbeByte(m1, slots, k, k + 1, a);
    LoadNonZero(Construct(m1, slots, vals, k + 1), slots[k].off, slots[k].load, a - slots[k].off);
    ModSmall(0, Pow2(8 * slots[k].load));
  }

  /** A constructed field always reads back, modulo its memory width, exactly when no later store
      overlaps the bytes it is read from. */
  lemma SurvivesExactly(slots: seq<Slot>, size: nat, k: nat)
    requires Inside(slots, size) && k < |slots|
    ensures Survives(slots, size, k) <==> Unclobbered(slots, k)
  {
    hide ByteOf, Load, Pow2, Store, Construct, ReadsBack;
    if Unclobbered(slots, k) {
      forall mem: seq<Byte>, vals: seq<nat> | |mem| == size && |vals| == |slots|
        ensures ReadsBack(mem, slots, vals, k)
      {
        FieldReads(mem, slots, vals, k);
        Restate(mem, slots, vals, k);
      }
    } else {
      var j, a: nat :| k < j < |slots| && Reads(slots[k], a) && Covers(slots[j], a);
      var mem: seq<Byte> := seq(size, _ => 0);
      ProbeFails(mem, slots, k, j, a);
    }
  }

  lemma Restate(mem: seq<Byte>, slots: seq<Slot>, vals: seq<nat>, k: nat)
    requires Inside(slots, |mem|) && |vals| == |slots| && k < |slots|
    requires Load(Construct(mem, slots, vals, 0), slots[k].off, slots[k].load) == vals[k] % Pow2(8 * slots[k].load)
    ensures ReadsBack(mem, slots, vals, k)
  {
  }

  // ---- layouts ----

  /** How a Julia field is held: a scalar of one to eight bytes, a struct of at most eight that was packed
      into a register, or a pointer. */
  datatype Kind = Scalar(size: nat) | Packed(size: nat) | Pointer

  /** 1, 2, 4 or 8. */
  function MemoryWidth(size: nat): nat {
    if size <= 1 then 1 else if size <= 2 then 2 else if size <= 4 then 4 else 8
  }

  /** Scalars up to four bytes live in four-byte registers; packing leaves eight bytes, whatever the size. */
  function SlotOf(kind: Kind, off: nat): Slot {
    match kind
    case Pointer => Slot(off, 8, 8)
    case Scalar(size) => Slot(off, if size <= 4 then 4 else 8, MemoryWidth(size))
    case Packed(size) => Slot(off, 8, MemoryWidth(size))
  }

  /** The memory width is the least of one, two, four and eight bytes that holds the field; registers are
      four bytes where that is enough for a scalar, and eight for all else. */
  lemma SlotWidths(kind: Kind, off: nat)
    ensures var s := SlotOf(kind, off);
      && s.off == off && s.load <= s.reg && s.load in {1, 2, 4, 8} && s.reg in {4, 8}
      && (kind.Pointer? ==> s.load == 8 == s.reg)
      && (!kind.Pointer? ==> (s.load < 8 ==> kind.size <= s.load) && (s.load > 1 ==> s.load < 2 * kind.size))
      && (kind.Packed? ==> s.reg == 8)
      && (kind.Scalar? ==> (s.reg == 4 <==> s.load <= 4))
  {
  }

  datatype Member = Member(kind: Kind, off: nat, size: nat)

  function Slots(ms: seq<Member>): (s: seq<Slot>)
    ensures |s| == |ms|
  {
    seq(|ms|, i requires 0 <= i < |ms| => SlotOf(ms[i].kind, ms[i].off))
  }

  /** Members in increasing, non-overlapping places of at least their memory width. */
  ghost predicate NaturalLayout(ms: seq<Member>) {
    && (forall i | 0 <= i < |ms| :: SlotOf(ms[i].kind, ms[i].off).load <= ms[i].size)
    && (forall i, j | 0 <= i < j < |ms| :: ms[i].off + ms[i].size <= ms[j].off)
  }

  /** Over-wide stores in offset order are harmless: each overrun is overwritten by its owner. */
  lemma NaturalSurvives(ms: seq<Member>, size: nat, k: nat)
    requires NaturalLayout(ms) && Inside(Slots(ms), size) && k < |ms|
    ensures Survives(Slots(ms), size, k)
  {
    hide Survives;
    SurvivesExactly(Slots(ms), size, k);
  }

  /** What a load of member k finds. */
  function ReadMember(mem: seq<Byte>, ms: seq<Member>, k: nat): nat
    requires Inside(Slots(ms), |mem|) && k < |ms|
  {
    Load(mem, Slots(ms)[k].off, Slots(ms)[k].load)
  }

  /** The values that members of this kind hold: bytes of a scalar or of a packed struct, or a word. */
  function Range(kind: Kind): nat {
    match kind case Pointer => Pow2(64) case Scalar(size) => Pow2(8 * size) case Packed(size) => Pow2(8 * size)
  }

  /** In a natural layout every member, of at most eight bytes, reads back exactly the value it was given. */
  lemma NaturalReads(mem: seq<Byte>, ms: seq<Member>, vals: seq<nat>, k: nat)
    requires NaturalLayout(ms) && Inside(Slots(ms), |mem|) && |vals| == |ms| && k < |ms|
    requires (ms[k].kind.Pointer? || ms[k].kind.size <= 8) && vals[k] < Range(ms[k].kind)
    ensures ReadMember(Construct(mem, Slots(ms), vals, 0), ms, k) == vals[k]
  {
    hide Load, Construct, Pow2, Survives, ReadsBack;
    NaturalSurvives(ms, |mem|, k);
    assert ReadsBack(mem, Slots(ms), vals, k) by { Instance(mem, Slots(ms), vals, k); }
    Unread(mem, Slots(ms), vals, k);
    var load := Slots(ms)[k].load;
    SlotWidths(ms[k].kind, ms[k].off);
    var size := if ms[k].kind.Pointer? then 8 else ms[k].kind.size;
    Pow2Mono(8 * size, 8 * load);
    ModSmall(vals[k], Pow2(8 * load));
  }

  lemma Instance(mem: seq<Byte>, slots: seq<Slot>, vals: seq<nat>, k: nat)
    requires Inside(slots, |mem|) && |vals| == |slots| && k < |slots| && Survives(slots, |mem|, k)
    ensures ReadsBack(mem, slots, vals, k)
  {
    hide ReadsBack;
  }

  lemma Unread(mem: seq<Byte>, slots: seq<Slot>, vals: seq<nat>, k: nat)
    requires Inside(slots, |mem|) && |vals| == |slots| && k < |slots| && ReadsBack(mem, slots, vals, k)
    ensures Load(Construct(mem, slots, vals, 0), slots[k].off, slots[k].load) == vals[k] % Pow2(8 * slots[k].load)
  {
  }

  /** A pointer-typed member inlined in a three-byte place loses its upper bytes to the next member. */
  lemma InlinedPointerLost(size: nat)
    requires size >= 8
    ensures var ms := [Member(Pointer, 0, 3), Member(Scalar(1), 3, 1)];
      Inside(Slots(ms), size) && !Survives(Slots(ms), size, 0)
  {
    hide Survives;
    var ms := [Member(Pointer, 0, 3), Member(Scalar(1), 3, 1)];
    SurvivesExactly(Slots(ms), size, 0);
    assert Reads(Slots(ms)[0], 3) && Covers(Slots(ms)[1], 3);
  }

  // ---- storing one field of an existing object ----

  predicate Disjoint(s: Slot, t: Slot) {
    s.off + s.reg <= t.off || t.off + t.load <= s.off
  }

  predicate Keeps(mem: seq<Byte>, s: Slot, v: nat, t: Slot)
    requires s.off + s.reg <= |mem| && t.off + t.load <= |mem|
  {
    Load(Store(mem, s.off, s.reg, v), t.off, t.load) == Load(mem, t.off, t.load)
  }

  /** Whatever the memory holds and whatever is assigned. */
  ghost predicate AlwaysKeeps(s: Slot, t: Slot, size: nat)
    requires s.off + s.reg <= size && t.off + t.load <= size
  {
    forall mem: seq<Byte>, v: nat | |mem| == size :: Keeps(mem, s, v, t)
  }

  /** Assigning field s leaves field t as it was exactly when the register's bytes miss the bytes t is
      read from. */
  lemma AssignKeepsExactly(s: Slot, t: Slot, size: nat)
    requires s.off + s.reg <= size && t.off + t.load <= size && s.reg > 0 && t.load > 0
    ensures AlwaysKeeps(s, t, size) <==> Disjoint(s, t)
  {
    hide ByteOf, Load, Pow2;
    if Disjoint(s, t) {
      forall mem: seq<Byte>, v: nat | |mem| == size ensures Keeps(mem, s, v, t) {
        LoadFrame(Store(mem, s.off, s.reg, v), mem, t.off, t.load);
      }
    } else {
      var mem: seq<Byte> := seq(size, _ => 0);
      var a := if s.off >= t.off then s.off else t.off;
      var m := Store(mem, s.off, s.reg, Ones(s.reg));
      OnesByte(s.reg, a - s.off);
      LoadNonZero(m, t.off, t.load, a - t.off);
      LoadZero(mem, t.off, t.load);
      assert !Keeps(mem, s, Ones(s.reg), t);
    }
  }

  // ---- array elements ----

  function Element(i: nat, stride: nat, reg: nat, load: nat): Slot {
    Slot(i * stride, reg, load)
  }

  lemma ElementInside(n: nat, i: nat, stride: nat, reg: nat, load: nat, size: nat)
    requires i < n && n * stride + reg <= size && load <= stride
    ensures i * stride + reg <= size && i * stride + load <= size
  {
    StrideMono(i, n, stride);
  }

  /** Assigning an element keeps every other one exactly when the register is no wider than the stride;
      byte arrays, stored through four-byte registers, lose the next three elements. */
  lemma ElementsKeptExactly(n: nat, stride: nat, reg: nat, load: nat, size: nat)
    requires n >= 2 && 0 < load <= stride && reg > 0 && n * stride + reg <= size
    ensures (forall i: nat, j: nat | i < n && j < n && i != j ::
              ElementKept(i, j, stride, reg, load, size))
            <==> reg <= stride
  {
    hide AlwaysKeeps;
    if reg <= stride {
      forall i: nat, j: nat | i < n && j < n && i != j ensures ElementKept(i, j, stride, reg, load, size) {
        ElementInside(n, i, stride, reg, load, size);
        ElementInside(n, j, stride, reg, load, size);
        if i < j { StrideMono(i, j, stride); } else { StrideMono(j, i, stride); }
        AssignKeepsExactly(Element(i, stride, reg, load), Element(j, stride, reg, load), size);
      }
    } else {
      ElementInside(n, 0, stride, reg, load, size);
      ElementInside(n, 1, stride, reg, load, size);
      var s, t := Element(0, stride, reg, load), Element(1, stride, reg, load);
      assert s == Slot(0, reg, load) && t == Slot(stride, reg, load);
      AssignKeepsExactly(s, t, size);
      assert !ElementKept(0, 1, stride, reg, load, size);
    }
  }

  /** Assigning element i never changes element j. */
  ghost predicate ElementKept(i: nat, j: nat, stride: nat, reg: nat, load: nat, size: nat) {
    var s, t := Element(i, stride, reg, load), Element(j, stride, reg, load);
    s.off + s.reg <= size && t.off + t.load <= size && AlwaysKeeps(s, t, size)
  }

  /** Assigning a byte through a four-byte register changes the next element for some contents. */
  lemma ByteArrayClobbers(n: nat, size: nat)
    requires n >= 2 && n + 4 <= size
    ensures !ElementKept(0, 1, 1, 4, 1, size)
  {
    hide AlwaysKeeps;
    var s, t := Element(0, 1, 4, 1), Element(1, 1, 4, 1);
    AssignKeepsExactly(s, t, size);
  }

  lemma StrideMono(i: nat, j: nat, stride: nat)
    requires i < j
    ensures i * stride + stride <= j * stride
  {
    MulMono(i + 1, j, stride);
    assert (i + 1) * stride == i * stride + stride;
  }

  // ---- zero filling ----

  function RoundUp(n: nat, align: nat): (r: nat)
    requires align > 0
    ensures n <= r < n + align && r % align == 0
  {
    assert n == (n / align) * align + n % align;
    var q := (n + align - 1) / align;
    assert n + align - 1 == q * align + (n + align - 1) % align;
    MultipleMod(q, align);
    MulNonNeg(q, align);
    q * align
  }

  lemma MultipleMod(q: nat, n: nat)
    requires n > 0
    ensures (q * n) % n == 0
  {
    ModUnique(q * n, n, q, 0);
  }

  /** Eight-byte zeros at 0, 8, ... while the offset is inside the data. */
  function ZeroFrom(mem: seq<Byte>, z: nat, data: nat): (r: seq<Byte>)
    requires z % 8 == 0 && RoundUp(data, 8) <= |mem|
    ensures |r| == |mem|
    decreases RoundUp(data, 8) + 8 - z
  {
    if z >= data then mem
    else
      assert z + 8 <= RoundUp(data, 8);
      ZeroFrom(Store(mem, z, 8, 0), z + 8, data)
  }

  lemma {:induction false} ZeroFilled(mem: seq<Byte>, z: nat, data: nat, a: nat)
    requires z % 8 == 0 && RoundUp(data, 8) <= |mem| && a < |mem|
    ensures ZeroFrom(mem, z, data)[a] == if z <= a < RoundUp(data, 8) && z < data then 0 else mem[a]
    decreases RoundUp(data, 8) + 8 - z
  {
    hide ByteOf;
    if z < data {
      var m := Store(mem, z, 8, 0);
      ZeroFilled(m, z + 8, data, a);
      if z <= a < z + 8 { ZeroByte(a - z); }
    }
  }

  lemma ZeroByte(i: nat)
    ensures ByteOf(0, i) == 0
  {
    ExtractZero(8 * i, 8);
  }

  lemma HeaderAbsorbs(data: nat)
    ensures 8 + RoundUp(data, 8) <= RoundUp(8 + data, 16)
  {
    var r, t := RoundUp(data, 8), RoundUp(8 + data, 16);
    var k, m := r / 8, t / 16;
    assert r == 8 * k && t == 16 * m;
  }

  /** The fill clears all data bytes, and its overrun stays inside the object's sixteen-byte slot,
      whose eight-byte header precedes the data. */
  lemma ZeroFillAbsorbed(mem: seq<Byte>, data: nat, a: nat)
    requires RoundUp(data, 8) <= |mem| && a < |mem|
    ensures a < data ==> ZeroFrom(mem, 0, data)[a] == 0
    ensures 8 + a >= RoundUp(8 + data, 16) ==> ZeroFrom(mem, 0, data)[a] == mem[a]
  {
    hide RoundUp, ZeroFrom;
    HeaderAbsorbs(data);
    ZeroFilled(mem, 0, data, a);
  }

  // ---- the end of an object ----

  /** Construction leaves everything from end on as it was, whatever memory and the fields hold. */
  ghost predicate StaysBefore(slots: seq<Slot>, size: nat, end: nat)
    requires Inside(slots, size)
  {
    forall mem: seq<Byte>, vals: seq<nat> | |mem| == size && |vals| == |slots| :: KeptFrom(mem, slots, vals, end)
  }

  predicate KeptFrom(mem: seq<Byte>, slots: seq<Slot>, vals: seq<nat>, end: nat)
    requires Inside(slots, |mem|) && |vals| == |slots|
  {
    forall a | end <= a < |mem| :: Construct(mem, slots, vals, 0)[a] == mem[a]
  }

  lemma EndsKept(mem: seq<Byte>, slots: seq<Slot>, vals: seq<nat>, end: nat)
    requires Inside(slots, |mem|) && |vals| == |slots|
    requires forall i | 0 <= i < |slots| :: slots[i].off + slots[i].reg <= end
    ensures KeptFrom(mem, slots, vals, end)
  {
    hide Construct;
    forall a | end <= a < |mem| ensures Construct(mem, slots, vals, 0)[a] == mem[a] {
      ConstructFrame(mem, slots, vals, 0, a);
    }
  }

  lemma StaysExactly(slots: seq<Slot>, size: nat, end: nat)
    requires Inside(slots, size) && forall i | 0 <= i < |slots| :: slots[i].reg > 0
    ensures StaysBefore(slots, size, end) <==> forall i | 0 <= i < |slots| :: slots[i].off + slots[i].reg <= end
  {
    hide Construct, KeptFrom;
    if forall i | 0 <= i < |slots| :: slots[i].off + slots[i].reg <= end {
      forall mem: seq<Byte>, vals: seq<nat> | |mem| == size && |vals| == |slots|
        ensures KeptFrom(mem, slots, vals, end)
      {
        EndsKept(mem, slots, vals, end);
      }
    } else {
      var i :| 0 <= i < |slots| && slots[i].off + slots[i].reg > end;
      Spills(slots, size, end, i);
    }
  }

  lemma Spills(slots: seq<Slot>, size: nat, end: nat, i: nat)
    requires Inside(slots, size) && i < |slots| && slots[i].reg > 0 && slots[i].off + slots[i].reg > end
    ensures !StaysBefore(slots, size, end)
  {
    hide Construct;
    var mem: seq<Byte> := seq(size, _ => 0);
    var a := slots[i].off + slots[i].reg - 1;
    assert Covers(slots[i], a);
    ProbeByte(mem, slots, |slots|, 0, a);
    assert !KeptFrom(mem, slots, Probe(slots, |slots|), end);
  }

  /** A member's store, counted from the start of its object's slot, which an eight-byte header opens. */
  function ObjectSlots(ms: seq<Member>): (s: seq<Slot>)
    ensures |s| == |ms|
  {
    seq(|ms|, i requires 0 <= i < |ms| => SlotOf(ms[i].kind, 8 + ms[i].off))
  }

  /** The stores of an object with data bytes of fields stay in its sixteen-byte aligned slot, for all
      contents, exactly when each register does. */
  lemma ObjectStaysExactly(ms: seq<Member>, data: nat, size: nat)
    requires Inside(ObjectSlots(ms), size)
    ensures StaysBefore(ObjectSlots(ms), size, RoundUp(8 + data, 16))
      <==> forall i | 0 <= i < |ms| :: 8 + ms[i].off + SlotOf(ms[i].kind, 0).reg <= RoundUp(8 + data, 16)
  {
    hide StaysBefore, RoundUp;
    StaysExactly(ObjectSlots(ms), size, RoundUp(8 + data, 16));
    forall i | 0 <= i < |ms|
      ensures ObjectSlots(ms)[i].off + ObjectSlots(ms)[i].reg == 8 + ms[i].off + SlotOf(ms[i].kind, 0).reg
    {
    }
  }

  /** A Bool in the last of eight bytes is stored into the next object's header. */
  lemma TrailingBoolSpills(size: nat)
    requires size >= 19
    ensures var ms := [Member(Scalar(1), 7, 1)];
      Inside(ObjectSlots(ms), size) && !StaysBefore(ObjectSlots(ms), size, RoundUp(8 + 8, 16))
  {
    hide StaysBefore, RoundUp;
    var ms := [Member(Scalar(1), 7, 1)];
    assert ObjectSlots(ms) == [Slot(15, 4, 1)];
    ObjectStaysExactly(ms, 8, size);
    assert 8 + ms[0].off + SlotOf(ms[0].kind, 0).reg > RoundUp(8 + 8, 16);
  }

  // ---- tuple indexing ----

  /** The select chain, built from the last arm backwards: component idx, or the last one. */
  method SelectChain(elems: seq<nat>, idx: int) returns (acc: nat)
    requires |elems| > 0
    ensures 1 <= idx <= |elems| ==> acc == elems[idx - 1]
    ensures !(1 <= idx <= |elems|) ==> acc == elems[|elems| - 1]
  {
    var i := |elems| - 1;
    acc := elems[i];
    while i > 0
      invariant 0 <= i < |elems|
      invariant acc == if i < idx <= |elems| then elems[idx - 1] else elems[|elems| - 1]
    {
      if idx == i { acc := elems[i - 1]; }
      i := i - 1;
    }
  }
}

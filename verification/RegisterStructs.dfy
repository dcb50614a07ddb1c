/** Structs of at most eight bytes live in one register: construction shifts each zero-extended field
    to its byte offset and ORs it in, field access shifts right and masks. */
module RegisterStructs {
  import opened Words

  // ---- extracting bits ----

  /** The s bits of x that start at bit o. */
  function Extract(x: nat, o: nat, s: nat): (r: nat)
    ensures r < Pow2(s)
  {
    (x / Pow2(o)) % Pow2(s)
  }

  /** A word without its top bit. */
  function Low(x: nat, w: nat): (r: nat)
    requires w > 0 && x < Pow2(w)
    ensures r < Pow2(w - 1) && (r == x || r + Pow2(w - 1) == x)
  {
    if x >= Pow2(w - 1) then x - Pow2(w - 1) else x
  }

  lemma DivMultiple(y: nat, k: nat, n: nat)
    requires n > 0
    ensures (k * n + y) / n == k + y / n
  {
    assert y == (y / n) * n + y % n;
    assert k * n + y == (k + y / n) * n + y % n;
    ModUnique(k * n + y, n, k + y / n, y % n);
  }

  lemma ModMultiple(y: nat, k: nat, n: nat)
    requires n > 0
    ensures (k * n + y) % n == y % n
  {
    assert y == (y / n) * n + y % n;
    assert k * n + y == (k + y / n) * n + y % n;
    ModUnique(k * n + y, n, k + y / n, y % n);
  }

  lemma DivBound(x: nat, o: nat, s: nat)
    requires x < Pow2(o + s)
    ensures x / Pow2(o) < Pow2(s)
  {
    hide Pow2;
    Pow2Add(o, s);
    QuotientBound(x, Pow2(o), Pow2(s));
  }

  lemma QuotientBound(x: nat, n: nat, m: nat)
    requires n > 0 && x < n * m
    ensures x / n < m
  {
    assert x == (x / n) * n + x % n;
    if x / n >= m { MulMono(m, x / n, n); }
  }

  lemma DropMultiple(y: nat, r: nat, s: nat, o: nat)
    requires s > 0 && o > 0
    ensures (((r * s) * o + y) / o) % s == (y / o) % s
  {
    MulNonNeg(r, s);
    DivMultiple(y, r * s, o);
    ModMultiple(y / o, r, s);
  }

  /** A field below the top bit does not see it. */
  lemma ExtractLow(x: nat, w: nat, o: nat, s: nat)
    requires w > 0 && x < Pow2(w) && o + s < w
    ensures Extract(x, o, s) == Extract(Low(x, w), o, s)
  {
    hide Pow2;
    var y := Low(x, w);
    if y != x {
      var r := w - 1 - o - s;
      Pow2Add(r, s);
      Pow2Add(r + s, o);
      assert r + s + o == w - 1;
      DropMultiple(y, Pow2(r), Pow2(s), Pow2(o));
    }
  }

  lemma ExtractAll(x: nat, o: nat, s: nat)
    requires x < Pow2(o + s)
    ensures Extract(x, o, s) == x / Pow2(o)
  {
    hide Pow2;
    DivBound(x, o, s);
    ModSmall(x / Pow2(o), Pow2(s));
  }

  /** A field that ends in the top bit splits into it and the rest. */
  lemma ExtractTop(x: nat, w: nat, o: nat, s: nat)
    requires w > 0 && s > 0 && x < Pow2(w) && o + s == w
    ensures Extract(x, o, s) == (if x >= Pow2(w - 1) then Pow2(s - 1) else 0) + Extract(Low(x, w), o, s - 1)
  {
    hide Pow2, Extract;
    var y := Low(x, w);
    ExtractAll(x, o, s);
    assert o + (s - 1) == w - 1;
    ExtractAll(y, o, s - 1);
    if y != x {
      Pow2Add(s - 1, o);
      DivMultiple(y, Pow2(s - 1), Pow2(o));
    }
  }

  /** Extracting commutes with OR. */
  lemma {:induction false} ExtractOr(w: nat, a: nat, b: nat, o: nat, s: nat)
    requires a < Pow2(w) && b < Pow2(w) && o + s <= w
    ensures Extract(Bitwise(Or, w, a, b), o, s) == Bitwise(Or, s, Extract(a, o, s), Extract(b, o, s))
    decreases w
  {
    hide Pow2, Extract;
    if s == 0 {
      ExtractNothing(a, o);
      ExtractNothing(b, o);
      ExtractNothing(Bitwise(Or, w, a, b), o);
    } else {
      var a', b', x := Low(a, w), Low(b, w), Bitwise(Or, w, a, b);
      assert Low(x, w) == Bitwise(Or, w - 1, a', b');
      if o + s < w {
        ExtractLow(a, w, o, s);
        ExtractLow(b, w, o, s);
        ExtractLow(x, w, o, s);
        ExtractOr(w - 1, a', b', o, s);
      } else {
        ExtractTop(a, w, o, s);
        ExtractTop(b, w, o, s);
        ExtractTop(x, w, o, s);
        ExtractOr(w - 1, a', b', o, s - 1);
      }
    }
  }

  lemma ExtractNothing(x: nat, o: nat)
    ensures Extract(x, o, 0) == 0
  {
    assert Pow2(0) == 1;
  }

  lemma {:induction false} OrZero(w: nat, x: nat)
    requires x < Pow2(w)
    ensures Bitwise(Or, w, x, 0) == x && Bitwise(Or, w, 0, x) == x
  {
    if w > 0 { OrZero(w - 1, Low(x, w)); }
  }

  /** Masking with 2^s - 1 keeps the low s bits. */
  lemma {:induction false} AndMask(w: nat, x: nat, s: nat)
    requires x < Pow2(w) && s <= w
    ensures Pow2(s) - 1 < Pow2(w)
    ensures Bitwise(And, w, x, Pow2(s) - 1) == x % Pow2(s)
    decreases w
  {
    Pow2Mono(s, w);
    if w == 0 {
      assert Pow2(0) == 1;
    } else if s == w {
      ModSmall(x, Pow2(w));
      AndMask(w - 1, Low(x, w), w - 1);
      ModSmall(Low(x, w), Pow2(w - 1));
    } else {
      Pow2Mono(s, w - 1);
      AndMask(w - 1, Low(x, w), s);
      if Low(x, w) != x {
        Pow2Add(w - 1 - s, s);
        ModMultiple(Low(x, w), Pow2(w - 1 - s), Pow2(s));
      }
    }
  }

  // ---- packing ----

  /** A field's place in the struct, in bytes, and the register contents stored in it. */
  datatype Field = Field(off: nat, size: nat, bits: nat)

  predicate Fits(f: Field) {
    f.bits < Pow2(8 * f.size)
  }

  predicate Apart(f: Field, g: Field) {
    f.off + f.size <= g.off || g.off + g.size <= f.off
  }

  /** Non-overlapping fields of a struct of the given size, which fits the register. */
  ghost predicate Layout(fields: seq<Field>, total: nat, w: nat) {
    && 8 * total <= w
    && (forall i | 0 <= i < |fields| :: fields[i].off + fields[i].size <= total && fields[i].bits < Pow2(w))
    && (forall i, j | 0 <= i < j < |fields| :: Apart(fields[i], fields[j]))
  }

  /** Shifting left loses what leaves the register. */
  function Placed(f: Field, w: nat): (r: nat)
    ensures r < Pow2(w)
  {
    Wrap(f.bits * Pow2(8 * f.off), w)
  }

  function PackFrom(fields: seq<Field>, i: nat, acc: nat, w: nat): (r: nat)
    requires acc < Pow2(w)
    ensures r < Pow2(w)
    decreases |fields| - i
  {
    if i >= |fields| then acc
    else PackFrom(fields, i + 1, Bitwise(Or, w, Placed(fields[i], w), acc), w)
  }

  function Pack(fields: seq<Field>, w: nat): (r: nat)
    ensures r < Pow2(w)
  {
    PackFrom(fields, 0, 0, w)
  }

  function ShiftRight(x: nat, o: nat, w: nat): (r: nat)
    requires x < Pow2(w)
    ensures r < Pow2(w)
  {
    DivShrinks(x, Pow2(o));
    x / Pow2(o)
  }

  function Mask(s: nat, w: nat): (r: nat)
    requires s <= w
    ensures r < Pow2(w) && r == Pow2(s) - 1
  {
    Pow2Mono(s, w);
    Pow2(s) - 1
  }

  /** A field that fills the struct is the register itself; any other is shifted down and masked. */
  function Unpack(packed: nat, off: nat, size: nat, total: nat, w: nat): (r: nat)
    requires packed < Pow2(w) && 8 * size <= w
  {
    if off == 0 && size >= total then packed
    else Bitwise(And, w, ShiftRight(packed, 8 * off, w), Mask(8 * size, w))
  }

  /** The loop as emitted. */
  method PackStruct(fields: seq<Field>, w: nat) returns (acc: nat)
    ensures acc == Pack(fields, w)
  {
    acc := 0;
    for i := 0 to |fields|
      invariant acc < Pow2(w) && PackFrom(fields, i, acc, w) == Pack(fields, w)
    {
      acc := Bitwise(Or, w, Placed(fields[i], w), acc);
    }
  }

  // ---- one placed field, seen through a window ----

  lemma PlacedExact(f: Field, w: nat)
    requires Fits(f) && 8 * (f.off + f.size) <= w
    ensures Placed(f, w) == f.bits * Pow2(8 * f.off) < Pow2(8 * (f.off + f.size))
  {
    hide Pow2;
    var m := Pow2(8 * f.off);
    Pow2Add(8 * f.size, 8 * f.off);
    Pow2Mono(8 * (f.off + f.size), w);
    MulMono(f.bits + 1, Pow2(8 * f.size), m);
    assert (f.bits + 1) * m == f.bits * m + m;
    MulNonNeg(f.bits, m);
    ModSmall(f.bits * m, Pow2(w));
  }

  lemma PlacedSelf(f: Field, w: nat)
    requires Fits(f) && 8 * (f.off + f.size) <= w
    ensures Extract(Placed(f, w), 8 * f.off, 8 * f.size) == f.bits
  {
    hide Pow2;
    PlacedExact(f, w);
    DivMultiple(0, f.bits, Pow2(8 * f.off));
    ModSmall(f.bits, Pow2(8 * f.size));
  }

  /** Nothing of a field shows in a window that does not overlap it. */
  lemma PlacedOther(f: Field, w: nat, o: nat, s: nat)
    requires Fits(f) && 8 * (f.off + f.size) <= w
    requires 8 * (f.off + f.size) <= o || o + s <= 8 * f.off
    ensures Extract(Placed(f, w), o, s) == 0
  {
    hide Pow2;
    PlacedExact(f, w);
    if 8 * (f.off + f.size) <= o {
      Pow2Mono(8 * (f.off + f.size), o);
      DivSmall(Placed(f, w), Pow2(o));
      ModSmall(0, Pow2(s));
    } else {
      var k := 8 * f.off - o - s;
      Pow2Add(k, s);
      Pow2Add(k + s, o);
      assert k + s + o == 8 * f.off;
      PlacedAbove(f.bits, Pow2(k), Pow2(s), Pow2(o));
    }
  }

  lemma DivSmall(x: nat, n: nat)
    requires x < n
    ensures x / n == 0
  {
  }

  lemma PlacedAbove(v: nat, k: nat, s: nat, o: nat)
    requires s > 0 && o > 0
    ensures ((v * ((k * s) * o)) / o) % s == 0
  {
    assert v * ((k * s) * o) == ((v * k) * s) * o;
    MulNonNeg(v, k);
    DropMultiple(0, v * k, s, o);
    DivSmall(0, o);
    ModSmall(0, s);
  }

  // ---- the packed word, seen through a window ----

  ghost predicate AllFit(fields: seq<Field>) {
    forall i | 0 <= i < |fields| :: Fits(fields[i])
  }

  predicate Outside(f: Field, o: nat, s: nat) {
    8 * (f.off + f.size) <= o || o + s <= 8 * f.off
  }

  /** A window that only field k may overlap sees that field, and what was there before. */
  lemma {:induction false} PackWindow(fields: seq<Field>, i: nat, acc: nat, w: nat, o: nat, s: nat, k: int)
    requires acc < Pow2(w) && AllFit(fields) && i <= |fields| && o + s <= w
    requires forall j | i <= j < |fields| :: 8 * (fields[j].off + fields[j].size) <= w
    requires forall j | i <= j < |fields| && j != k :: Outside(fields[j], o, s)
    requires i <= k < |fields| ==> o == 8 * fields[k].off && s == 8 * fields[k].size && Extract(acc, o, s) == 0
    ensures Extract(PackFrom(fields, i, acc, w), o, s)
      == if i <= k < |fields| then fields[k].bits else Extract(acc, o, s)
    decreases |fields| - i
  {
    hide Pow2, Extract, Placed, Bitwise, Fits;
    if i < |fields| {
      var x := Placed(fields[i], w);
      ExtractOr(w, x, acc, o, s);
      if i == k { PlacedSelf(fields[i], w); } else { PlacedOther(fields[i], w, o, s); }
      OrZero(s, Extract(x, o, s));
      OrZero(s, Extract(acc, o, s));
      PackWindow(fields, i + 1, Bitwise(Or, w, x, acc), w, o, s, k);
    }
  }

  lemma ExtractZero(o: nat, s: nat)
    ensures Extract(0, o, s) == 0
  {
    hide Pow2;
    DivSmall(0, Pow2(o));
    ModSmall(0, Pow2(s));
  }

  lemma PackedField(fields: seq<Field>, total: nat, w: nat, k: nat)
    requires Layout(fields, total, w) && AllFit(fields) && k < |fields|
    ensures Extract(Pack(fields, w), 8 * fields[k].off, 8 * fields[k].size) == fields[k].bits
  {
    hide Pow2, Extract, Fits;
    var o, s := 8 * fields[k].off, 8 * fields[k].size;
    ExtractZero(o, s);
    forall j | 0 <= j < |fields| && j != k ensures Outside(fields[j], o, s) {
      assert Apart(fields[if j < k then j else k], fields[if j < k then k else j]);
    }
    PackWindow(fields, 0, 0, w, o, s, k);
  }

  // ---- the packed word, bit by bit ----

  predicate Bit(x: nat, n: nat) { Extract(x, n, 1) == 1 }

  lemma OrBit(w: nat, a: nat, b: nat, n: nat)
    requires a < Pow2(w) && b < Pow2(w) && n < w
    ensures Bit(Bitwise(Or, w, a, b), n) <==> Bit(a, n) || Bit(b, n)
  {
    hide Extract;
    ExtractOr(w, a, b, n, 1);
    assert Pow2(1) == 2 && Pow2(0) == 1;
  }

  lemma DivShift(b: nat, m: nat, k: nat)
    requires m > 0 && k > 0
    ensures m * k > 0 && (b * m) / (m * k) == b / k
  {
    var q, r := b / k, b % k;
    assert b == q * k + r;
    assert b * m == q * (m * k) + r * m;
    MulMono(1, k, m);
    MulMono(r + 1, k, m);
    assert (r + 1) * m == r * m + m;
    MulNonNeg(r, m);
    ModUnique(b * m, m * k, q, r * m);
  }

  /** Wrapping a word leaves the bits below its width. */
  lemma WrapBit(x: nat, w: nat, n: nat)
    requires n < w
    ensures Bit(Wrap(x, w), n) <==> Bit(x, n)
  {
    hide Pow2;
    var y := x % Pow2(w);
    var k := w - n - 1;
    Pow2Add(k, 1);
    Pow2Add(k + 1, n);
    MulNonNeg(x / Pow2(w), Pow2(k));
    assert x == (x / Pow2(w)) * ((Pow2(k) * Pow2(1)) * Pow2(n)) + y;
    assert (x / Pow2(w)) * ((Pow2(k) * Pow2(1)) * Pow2(n)) == (((x / Pow2(w)) * Pow2(k)) * Pow2(1)) * Pow2(n);
    DropMultiple(y, (x / Pow2(w)) * Pow2(k), Pow2(1), Pow2(n));
  }

  lemma PlacedBit(f: Field, w: nat, n: nat)
    requires n < w
    ensures Bit(Placed(f, w), n) <==> n >= 8 * f.off && Bit(f.bits, n - 8 * f.off)
  {
    hide Pow2;
    var o := 8 * f.off;
    MulNonNeg(f.bits, Pow2(o));
    WrapBit(f.bits * Pow2(o), w, n);
    if n >= o {
      Pow2Add(o, n - o);
      DivShift(f.bits, Pow2(o), Pow2(n - o));
    } else {
      Pow2Add(o - n - 1, 1);
      Pow2Add(o - n, n);
      PlacedAbove(f.bits, Pow2(o - n - 1), Pow2(1), Pow2(n));
    }
  }

  lemma {:induction false} BitsFrom(fields: seq<Field>, i: nat, acc: nat, w: nat, n: nat)
    requires acc < Pow2(w) && i <= |fields| && n < w
    ensures Bit(PackFrom(fields, i, acc, w), n)
      <==> Bit(acc, n) || exists k :: i <= k < |fields| && Bit(Placed(fields[k], w), n)
    decreases |fields| - i
  {
    hide Pow2, Extract, Placed, Bitwise, Bit;
    if i < |fields| {
      var x := Placed(fields[i], w);
      OrBit(w, x, acc, n);
      BitsFrom(fields, i + 1, Bitwise(Or, w, x, acc), w, n);
    }
  }

  /** Whatever the registers hold and however the fields overlap, a bit of the packed word is set exactly when
      some field has it set, counted from the field's byte offset. */
  lemma PackedBits(fields: seq<Field>, w: nat, n: nat)
    requires n < w
    ensures Bit(Pack(fields, w), n)
      <==> exists k :: 0 <= k < |fields| && n >= 8 * fields[k].off && Bit(fields[k].bits, n - 8 * fields[k].off)
  {
    hide Pow2, Extract, Placed, Bit;
    NoBit(n);
    BitsFrom(fields, 0, 0, w, n);
    forall k | 0 <= k < |fields|
      ensures Bit(Placed(fields[k], w), n) <==> n >= 8 * fields[k].off && Bit(fields[k].bits, n - 8 * fields[k].off)
    {
      PlacedBit(fields[k], w, n);
    }
  }

  lemma NoBit(n: nat)
    ensures !Bit(0, n)
  {
    ExtractZero(n, 1);
  }

  /** Nothing is set above the struct's own bytes. */
  lemma PackedBound(fields: seq<Field>, total: nat, w: nat)
    requires Layout(fields, total, w) && AllFit(fields)
    ensures Pack(fields, w) < Pow2(8 * total)
  {
    hide Pow2, Extract, Fits;
    var o, s := 8 * total, w - 8 * total;
    ExtractZero(o, s);
    PackWindow(fields, 0, 0, w, o, s, -1);
    TopZero(Pack(fields, w), o, s);
  }

  lemma TopZero(x: nat, o: nat, s: nat)
    requires x < Pow2(o + s) && Extract(x, o, s) == 0
    ensures x < Pow2(o)
  {
    hide Pow2;
    DivBound(x, o, s);
    ModSmall(x / Pow2(o), Pow2(s));
    assert x == (x / Pow2(o)) * Pow2(o) + x % Pow2(o);
  }

  lemma UnpackExtracts(packed: nat, off: nat, size: nat, total: nat, w: nat)
    requires packed < Pow2(w) && 8 * size <= w && !(off == 0 && size >= total)
    ensures Unpack(packed, off, size, total, w) == Extract(packed, 8 * off, 8 * size)
  {
    hide Pow2, Bitwise;
    AndMask(w, ShiftRight(packed, 8 * off, w), 8 * size);
  }

  /** Every field of every struct that fits the register reads back what was stored, in whatever order
      the fields are packed. */
  lemma RoundTrip(fields: seq<Field>, total: nat, w: nat, k: nat)
    requires Layout(fields, total, w) && AllFit(fields) && k < |fields|
    ensures 8 * fields[k].size <= w
    ensures Unpack(Pack(fields, w), fields[k].off, fields[k].size, total, w) == fields[k].bits
  {
    hide Pow2, Bitwise, Extract, Fits, Pack;
    var f := fields[k];
    PackedField(fields, total, w, k);
    if f.off == 0 && f.size >= total {
      PackedBound(fields, total, w);
      WholeField(Pack(fields, w), total);
    } else {
      UnpackExtracts(Pack(fields, w), f.off, f.size, total, w);
    }
  }

  lemma WholeField(x: nat, total: nat)
    requires x < Pow2(8 * total)
    ensures Extract(x, 0, 8 * total) == x
  {
    ModSmall(x, Pow2(8 * total));
    assert Pow2(0) == 1 && x / 1 == x;
  }

  predicate Whole(f: Field, total: nat) {
    f.off == 0 && f.size >= total
  }

  /** Field k comes back from the packed word. */
  predicate Returns(fields: seq<Field>, total: nat, w: nat, k: nat)
    requires k < |fields|
  {
    var f := fields[k];
    8 * f.size <= w && Unpack(Pack(fields, w), f.off, f.size, total, w) == f.bits
  }

  /** A field that fills the struct is alone in it, whatever its register holds. */
  lemma {:induction false} PackAlone(fields: seq<Field>, i: nat, acc: nat, w: nat, k: nat)
    requires acc < Pow2(w) && k < |fields| && i <= |fields| && fields[k].off == 0 && fields[k].bits < Pow2(w)
    requires (i <= k ==> acc == 0) && forall j | 0 <= j < |fields| && j != k :: fields[j].bits == 0
    ensures PackFrom(fields, i, acc, w) == if i <= k then fields[k].bits else acc
    decreases |fields| - i
  {
    hide Pow2, Bitwise;
    if i < |fields| {
      assert 0 * Pow2(8 * fields[i].off) == 0 && Pow2(0) == 1 by { PowZero(); }
      ModSmall(fields[i].bits, Pow2(w));
      OrZero(w, fields[i].bits);
      OrZero(w, acc);
      PackAlone(fields, i + 1, Bitwise(Or, w, Placed(fields[i], w), acc), w, k);
    }
  }

  lemma PowZero()
    ensures Pow2(0) == 1
  {
  }

  lemma AloneReturns(fields: seq<Field>, total: nat, w: nat, k: nat)
    requires Layout(fields, total, w) && total > 0 && k < |fields| && Whole(fields[k], total)
    requires forall j | 0 <= j < |fields| :: Fits(fields[j]) || Whole(fields[j], total)
    ensures forall j | 0 <= j < |fields| :: Returns(fields, total, w, j)
  {
    hide Pow2, Bitwise, Pack, Unpack, PackFrom;
    forall j | 0 <= j < |fields| && j != k ensures fields[j].bits == 0 && fields[j].size == 0 {
      assert Apart(fields[if j < k then j else k], fields[if j < k then k else j]);
      PowZero();
    }
    assert Pack(fields, w) == fields[k].bits by { AlonePacked(fields, w, k); }
    forall j | 0 <= j < |fields| ensures Returns(fields, total, w, j) {
      if j == k {
        WholeUnpack(fields[k].bits, fields[k].size, total, w);
      } else {
        UnpackExtracts(fields[k].bits, fields[j].off, 0, total, w);
        ExtractNothing(fields[k].bits, 8 * fields[j].off);
      }
    }
  }

  lemma AlonePacked(fields: seq<Field>, w: nat, k: nat)
    requires k < |fields| && fields[k].off == 0 && fields[k].bits < Pow2(w)
    requires forall j | 0 <= j < |fields| && j != k :: fields[j].bits == 0
    ensures Pack(fields, w) == fields[k].bits
  {
    hide Pow2, Bitwise;
    PackAlone(fields, 0, 0, w, k);
  }

  lemma WholeUnpack(x: nat, size: nat, total: nat, w: nat)
    requires x < Pow2(w) && 8 * size <= w && size >= total
    ensures Unpack(x, 0, size, total, w) == x
  {
    hide Pow2, Bitwise;
  }

  /** All fields come back exactly when each register fits its field, or the field is the whole struct: a
      register with bits beyond its field, such as a sign-extended negative byte, does not. */
  lemma RoundTripExactly(fields: seq<Field>, total: nat, w: nat)
    requires Layout(fields, total, w) && total > 0
    ensures (forall k | 0 <= k < |fields| :: Returns(fields, total, w, k))
      <==> forall k | 0 <= k < |fields| :: Fits(fields[k]) || Whole(fields[k], total)
  {
    hide Pow2, Bitwise, Extract, Pack, Unpack, Fits;
    if forall k | 0 <= k < |fields| :: Fits(fields[k]) || Whole(fields[k], total) {
      if k :| 0 <= k < |fields| && Whole(fields[k], total) {
        AloneReturns(fields, total, w, k);
      } else {
        forall k | 0 <= k < |fields| ensures Returns(fields, total, w, k) { RoundTrip(fields, total, w, k); }
      }
    }
    forall k | 0 <= k < |fields| && Returns(fields, total, w, k) && !Whole(fields[k], total) ensures Fits(fields[k]) {
      UnpackExtracts(Pack(fields, w), fields[k].off, fields[k].size, total, w);
      ReturnsFit(fields, w, k);
    }
  }

  lemma ReturnsFit(fields: seq<Field>, w: nat, k: nat)
    requires k < |fields| && Extract(Pack(fields, w), 8 * fields[k].off, 8 * fields[k].size) == fields[k].bits
    ensures Fits(fields[k])
  {
    hide Pow2, Pack;
  }

  /** A byte-sized field given a register with a ninth bit set: neither it nor its neighbour comes back. */
  lemma WideFieldLost(w: nat)
    requires w >= 16
    ensures var fields := [Field(0, 1, 256), Field(1, 1, 0)];
      256 < Pow2(w) && 8 <= w && Unpack(Pack(fields, w), 0, 1, 2, w) != 256
  {
    hide Pack, Bitwise;
    Pow2Mono(16, w);
    assert Pow2(4) == 16;
    Pow2Add(4, 4);
    Pow2Add(8, 8);
    var fields := [Field(0, 1, 256), Field(1, 1, 0)];
    UnpackExtracts(Pack(fields, w), 0, 1, 2, w);
  }
}

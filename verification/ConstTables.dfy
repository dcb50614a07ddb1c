/** Constant dictionaries in read-only data: the string table's serialised form, and the two lookups
    that replace hash probing. */
module ConstTables {
  import opened Wrappers
  import opened Words
  import FM = FieldMemory

  type Byte = FM.Byte

  // ---- the string table ----

  /** The strings of a hash table, slot by slot; None is an empty slot. */
  type Table = seq<Option<seq<Byte>>>

  const LEN_BYTES: nat := 4

  function MaxLen(): nat { Pow2(8 * LEN_BYTES - 1) }

  /** Lengths are signed 32-bit. */
  predicate Encodable(t: Table) {
    forall i | 0 <= i < |t| && t[i].Some? :: |t[i].value| < MaxLen()
  }

  function LengthField(n: nat): (r: seq<Byte>)
    ensures |r| == LEN_BYTES
  {
    seq(LEN_BYTES, i requires 0 <= i < LEN_BYTES => FM.ByteOf(n, i))
  }

  function Entry(s: Option<seq<Byte>>): seq<Byte> {
    match s case Some(b) => LengthField(|b|) + b case None => LengthField(0)
  }

  function Serialized(t: Table): seq<Byte> {
    if t == [] then [] else Serialized(t[..|t| - 1]) + Entry(t[|t| - 1])
  }

  method Serialize(t: Table) returns (buf: seq<Byte>)
    ensures buf == Serialized(t)
  {
    buf := [];
    for i := 0 to |t|
      invariant buf == Serialized(t[..i])
    {
      assert t[..i + 1][..i] == t[..i];
      match t[i] {
        case Some(b) => buf := buf + LengthField(|b|) + b;
        case None => buf := buf + LengthField(0);
      }
      assert buf == Serialized(t[..i]) + Entry(t[i]);
    }
    assert t[..|t|] == t;
  }

  /** What the runtime rebuilds for one slot: null for a length of zero. */
  function Rebuilt(s: Option<seq<Byte>>): Option<seq<Byte>> {
    if s == Some([]) then None else s
  }

  /** The length at p, negative lengths counting as zero. */
  function LengthAt(data: seq<Byte>, p: nat): nat
    requires p + LEN_BYTES <= |data|
  {
    var v := Signed32(FM.Load(data, p, LEN_BYTES));
    if v < 0 then 0 else v
  }

  function Signed32(x: nat): int {
    if x < MaxLen() then x else x - 2 * MaxLen()
  }

  lemma LengthRead(data: seq<Byte>, p: nat, n: nat)
    requires p + LEN_BYTES <= |data| && data[p..p + LEN_BYTES] == LengthField(n) && n < MaxLen()
    ensures LengthAt(data, p) == n
  {
    hide Pow2, FM.ByteOf, FM.Load;
    forall i | 0 <= i < LEN_BYTES ensures data[p + i] == FM.ByteOf(n, i) {
      assert data[p..p + LEN_BYTES][i] == LengthField(n)[i];
    }
    FM.LoadBytes(data, p, LEN_BYTES, n);
    Pow2Mono(8 * LEN_BYTES - 1, 8 * LEN_BYTES);
    ModSmall(n, Pow2(8 * LEN_BYTES));
  }

  /** Any four bytes: with the top bit set the length is negative, and counts as zero. */
  lemma LengthOfAnyBytes(data: seq<Byte>, p: nat)
    requires p + LEN_BYTES <= |data|
    ensures data[p + 3] >= 128 ==> LengthAt(data, p) == 0
    ensures var a: nat, b: nat, c: nat, d: nat := data[p], data[p + 1], data[p + 2], data[p + 3];
      d < 128 ==> LengthAt(data, p) == a + 256 * (b + 256 * (c + 256 * d))
  {
    var x := FM.Load(data, p, LEN_BYTES);
    assert FM.Load(data, p + 3, 1) == data[p + 3] + 256 * FM.Load(data, p + 4, 0);
    assert FM.Load(data, p + 2, 2) == data[p + 2] + 256 * FM.Load(data, p + 3, 1);
    assert FM.Load(data, p + 1, 3) == data[p + 1] + 256 * FM.Load(data, p + 2, 2);
    assert x == data[p] + 256 * FM.Load(data, p + 1, 3);
    ThirtyOneBits();
  }

  lemma ThirtyOneBits()
    ensures MaxLen() == 128 * 256 * 256 * 256
  {
    hide Pow2;
    FM.Pow2Is256();
    Pow2Add(8, 8);
    Pow2Add(16, 8);
    assert Pow2(7) == 128 by { FM.Pow2Is256(); SevenBits(); }
    Pow2Add(24, 7);
  }

  lemma SevenBits()
    ensures Pow2(7) == 128
  {
    assert Pow2(3) == 8;
    Pow2Add(3, 4);
  }

  /** The table's bytes lie at p, whatever follows them. */
  predicate Holds(data: seq<Byte>, p: nat, t: Table) {
    p + |Serialized(t)| <= |data| && data[p..p + |Serialized(t)|] == Serialized(t)
  }

  lemma {:induction false} PrefixHolds(data: seq<Byte>, t: Table, i: nat)
    requires Holds(data, 0, t) && i <= |t|
    ensures Holds(data, 0, t[..i]) && |Serialized(t[..i])| <= |Serialized(t)|
    decreases |t| - i
  {
    hide Entry;
    if i == |t| {
      assert t[..i] == t;
    } else {
      PrefixHolds(data, t, i + 1);
      var u := t[..i + 1];
      assert u[..i] == t[..i];
      assert data[0..|Serialized(t[..i])|] == data[0..|Serialized(u)|][..|Serialized(t[..i])|];
    }
  }

  lemma EntryAt(data: seq<Byte>, t: Table, i: nat)
    requires Holds(data, 0, t) && i < |t|
    ensures var p := |Serialized(t[..i])|;
      && p + |Entry(t[i])| == |Serialized(t[..i + 1])| <= |data|
      && data[p..p + |Entry(t[i])|] == Entry(t[i])
  {
    hide Entry;
    PrefixHolds(data, t, i + 1);
    var u := t[..i + 1];
    assert u[..i] == t[..i] && u[i] == t[i];
    var p := |Serialized(t[..i])|;
    assert data[p..p + |Entry(t[i])|] == data[0..|Serialized(u)|][p..];
  }

  lemma EntryLength(data: seq<Byte>, p: nat, s: Option<seq<Byte>>)
    requires p + |Entry(s)| <= |data| && data[p..p + |Entry(s)|] == Entry(s)
    requires s.Some? ==> |s.value| < MaxLen()
    ensures var n := LengthAt(data, p);
      && p + LEN_BYTES + n == p + |Entry(s)|
      && (if n == 0 then None else Some(data[p + LEN_BYTES..p + LEN_BYTES + n])) == Rebuilt(s)
  {
    hide LengthField, LengthAt;
    var n := if s.Some? then |s.value| else 0;
    assert data[p..p + LEN_BYTES] == data[p..p + |Entry(s)|][..LEN_BYTES];
    Pow2Mono(0, 8 * LEN_BYTES - 1);
    LengthRead(data, p, n);
    if s.Some? { assert data[p + LEN_BYTES..p + LEN_BYTES + n] == data[p..p + |Entry(s)|][LEN_BYTES..]; }
  }

  /** The rebuilt table, as a function of the original. */
  function RebuiltTable(t: Table): (r: Table)
    ensures |r| == |t|
  {
    seq(|t|, i requires 0 <= i < |t| => Rebuilt(t[i]))
  }

  /** Where the runtime's walk over n slots leads; None if it would leave the data. */
  datatype Walk = Walk(out: Table, end: nat)

  function Walked(data: seq<Byte>, p: nat, n: nat): Option<Walk>
    decreases n
  {
    if n == 0 then Some(Walk([], p))
    else if p + LEN_BYTES > |data| then None
    else
      var len := LengthAt(data, p);
      if p + LEN_BYTES + len > |data| then None
      else
        var s := if len == 0 then None else Some(data[p + LEN_BYTES..p + LEN_BYTES + len]);
        match Walked(data, p + LEN_BYTES + len, n - 1)
        case None => None
        case Some(w) => Some(Walk([s] + w.out, w.end))
  }

  /** The rest of a walk, after what has been rebuilt so far. */
  function Behind(out: Table, w: Option<Walk>): Option<Walk> {
    match w case None => None case Some(x) => Some(Walk(out + x.out, x.end))
  }

  lemma BehindOne(out: Table, s: Option<seq<Byte>>, w: Option<Walk>)
    ensures Behind(out, Behind([s], w)) == Behind(out + [s], w)
  {
    if w.Some? { assert out + ([s] + w.value.out) == (out + [s]) + w.value.out; }
  }

  method Parse(data: seq<Byte>, nslots: nat) returns (r: Option<Walk>)
    ensures r == Walked(data, 0, nslots)
  {
    hide LengthAt;
    var out: Table, p: nat := [], 0;
    ghost var whole := Walked(data, 0, nslots);
    if whole.Some? { assert [] + whole.value.out == whole.value.out; }
    for i := 0 to nslots
      invariant whole == Behind(out, Walked(data, p, nslots - i))
    {
      if p + LEN_BYTES > |data| { return None; }
      var len := LengthAt(data, p);
      if p + LEN_BYTES + len > |data| { return None; }
      var s := if len == 0 then None else Some(data[p + LEN_BYTES..p + LEN_BYTES + len]);
      BehindOne(out, s, Walked(data, p + LEN_BYTES + len, nslots - i - 1));
      out := out + [s];
      p := p + LEN_BYTES + len;
    }
    assert out + [] == out;
    r := Some(Walk(out, p));
  }

  lemma {:induction false} WalkFrom(data: seq<Byte>, t: Table, i: nat)
    requires Holds(data, 0, t) && Encodable(t) && i <= |t|
    ensures Walked(data, |Serialized(t[..i])|, |t| - i) == Some(Walk(RebuiltTable(t)[i..], |Serialized(t)|))
    decreases |t| - i
  {
    hide Entry, LengthAt, Rebuilt, Holds;
    if i == |t| {
      assert t[..i] == t && RebuiltTable(t)[i..] == [];
    } else {
      EntryAt(data, t, i);
      EntryLength(data, |Serialized(t[..i])|, t[i]);
      WalkFrom(data, t, i + 1);
      assert RebuiltTable(t)[i..] == [Rebuilt(t[i])] + RebuiltTable(t)[i + 1..];
    }
  }

  /** Parsing a serialised table, whatever follows it: every filled slot comes back, save that an empty
      string becomes null, and exactly the table's bytes are consumed. */
  lemma RoundTrip(t: Table, rest: seq<Byte>)
    requires Encodable(t)
    ensures Walked(Serialized(t) + rest, 0, |t|) == Some(Walk(RebuiltTable(t), |Serialized(t)|))
  {
    hide Walked;
    var data := Serialized(t) + rest;
    assert data[0..|Serialized(t)|] == Serialized(t);
    WalkFrom(data, t, 0);
    assert t[..0] == [] && RebuiltTable(t)[0..] == RebuiltTable(t);
  }

  /** What is parsed from a serialised table is the table exactly when no filled slot holds the empty
      string. */
  lemma TableSurvivesExactly(t: Table, rest: seq<Byte>)
    requires Encodable(t)
    ensures Walked(Serialized(t) + rest, 0, |t|) == Some(Walk(t, |Serialized(t)|))
      <==> forall i | 0 <= i < |t| :: t[i] != Some([])
  {
    hide Walked, Serialized;
    RoundTrip(t, rest);
    if RebuiltTable(t) == t {
      forall i | 0 <= i < |t| ensures t[i] != Some([]) { assert RebuiltTable(t)[i] == t[i]; }
    }
  }

  /** A dictionary that maps something to the empty string gives null for it. */
  lemma EmptyStringLost(rest: seq<Byte>)
    ensures var w := Walked(Serialized([Some([])]) + rest, 0, 1); w.Some? && w.value.out == [None]
  {
    hide Walked, Serialized;
    var t: Table := [Some([])];
    Pow2Mono(0, 8 * LEN_BYTES - 1);
    RoundTrip(t, rest);
    assert RebuiltTable(t) == [None];
  }

  // ---- lookup ----

  datatype Slot = Filled(key: int, value: int) | Vacant

  predicate Matches(s: Slot, key: int) { s.Filled? && s.key == key }

  /** Keys of filled slots are pairwise distinct. */
  ghost predicate Distinct(slots: seq<Slot>) {
    forall i, j | 0 <= i < j < |slots| && slots[i].Filled? && slots[j].Filled? :: slots[i].key != slots[j].key
  }

  /** The finite map the slots stand for. */
  function Meaning(slots: seq<Slot>): map<int, int> {
    if slots == [] then map[]
    else
      var m := Meaning(slots[..|slots| - 1]);
      match slots[|slots| - 1] case Filled(k, v) => m[k := v] case Vacant => m
  }

  function Lookup(m: map<int, int>, key: int, default: int): int {
    if key in m then m[key] else default
  }

  lemma {:induction false} MeaningHas(slots: seq<Slot>, key: int)
    requires Distinct(slots)
    ensures key in Meaning(slots) <==> exists i :: 0 <= i < |slots| && Matches(slots[i], key)
    ensures forall i | 0 <= i < |slots| && Matches(slots[i], key) ::
      key in Meaning(slots) && Meaning(slots)[key] == slots[i].value
  {
    if slots != [] {
      var n := |slots| - 1;
      MeaningHas(slots[..n], key);
      if Matches(slots[n], key) {
        forall i | 0 <= i < n ensures !Matches(slots[i], key) {}
      } else {
        assert forall i | 0 <= i < n :: slots[..n][i] == slots[i];
        if key in Meaning(slots[..n]) {
          var i :| 0 <= i < n && Matches(slots[..n][i], key);
          assert Matches(slots[i], key);
        }
      }
    }
  }

  /** The overlay's scan: the first filled slot with the key, counted from one, or -1. */
  method KeyIndex(slots: seq<Slot>, key: int) returns (r: int)
    ensures r == -1 ==> forall i | 0 <= i < |slots| :: !Matches(slots[i], key)
    ensures r != -1 ==> 1 <= r <= |slots| && Matches(slots[r - 1], key)
    ensures r != -1 ==> forall i | 0 <= i < r - 1 :: !Matches(slots[i], key)
  {
    var i := 1;
    while i <= |slots|
      invariant 1 <= i <= |slots| + 1 && forall j | 0 <= j < i - 1 :: !Matches(slots[j], key)
    {
      if Matches(slots[i - 1], key) { return i; }
      i := i + 1;
    }
    r := -1;
  }

  /** The scan, used as a lookup, is the finite map's. */
  method GetByScan(slots: seq<Slot>, key: int, default: int) returns (v: int)
    requires Distinct(slots)
    ensures v == Lookup(Meaning(slots), key, default)
  {
    var i := KeyIndex(slots, key);
    MeaningHas(slots, key);
    v := if i == -1 then default else slots[i - 1].value;
  }

  /** The entries, in whatever order they are enumerated. */
  ghost predicate Enumerates(entries: seq<(int, int)>, slots: seq<Slot>) {
    && (forall e | e in entries :: Filled(e.0, e.1) in slots)
    && (forall s | s in slots && s.Filled? :: (s.key, s.value) in entries)
  }

  /** The emitted chain of selects, innermost first. */
  method GetBySelects(entries: seq<(int, int)>, key: int, default: int, ghost slots: seq<Slot>) returns (v: int)
    requires Distinct(slots) && Enumerates(entries, slots)
    ensures v == Lookup(Meaning(slots), key, default)
  {
    v := SelectChain(entries, key, default);
    MeaningHas(slots, key);
    if exists i :: 0 <= i < |slots| && Matches(slots[i], key) {
      var i :| 0 <= i < |slots| && Matches(slots[i], key);
      assert (slots[i].key, slots[i].value) in entries;
    }
  }

  method SelectChain(entries: seq<(int, int)>, key: int, default: int) returns (v: int)
    ensures (forall e | e in entries :: e.0 != key) ==> v == default
    ensures (exists e | e in entries :: e.0 == key) ==> (key, v) in entries
  {
    v := default;
    for i := 0 to |entries|
      invariant (forall j | 0 <= j < i :: entries[j].0 != key) ==> v == default
      invariant (exists j | 0 <= j < i :: entries[j].0 == key) ==> (key, v) in entries
    {
      v := if key == entries[i].0 then entries[i].1 else v;
    }
  }
}

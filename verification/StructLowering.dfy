/** Small structs in registers, as the instructions that are emitted: fields of either register width are
    brought together by the builder's extensions, and the code run leaves the packed and unpacked words
    of module RegisterStructs. */
module StructLowering {
  import opened Wrappers
  import opened Words
  import opened Machine
  import opened Lowering
  import opened EmitRun
  import RS = RegisterStructs

  /** A field of a struct: the register that holds it, and its place in bytes. */
  datatype Member = Member(id: Id, reg: Ty, off: nat, size: nat)

  // ---- what is emitted ----

  function EmitSextend(c: Ctx, ty: Ty, v: Id): (r: (Ctx, Id))
    requires Valid(c)
    ensures Straight(c, r.0)
  {
    if TyOf(c, v) == ty || (TyOf(c, v) == I64 && ty == I32) then (c, v)
    else Def(c, Instr.Sextend(c.next, ty, v), ty)
  }

  /** The field, extended to the struct's register type, at its place. */
  function EmitPlaced(c: Ctx, m: Member, ct: Ty): (r: (Ctx, Id))
    requires Valid(c)
    ensures Valid(r.0)
  {
    var (c1, f) := if m.reg != ct then EmitUextend(c, ct, m.id) else (c, m.id);
    if m.off == 0 then (c1, f)
    else
      var (c2, shift) := EmitIconst(c1, I64, 8 * m.off);
      EmitBinary(c2, Ishl, f, shift)
  }

  function EmitMembers(c: Ctx, ms: seq<Member>, i: nat, ct: Ty, acc: Id): (r: (Ctx, Id))
    requires Valid(c)
    ensures Valid(r.0)
    decreases |ms| - i
  {
    if i >= |ms| then (c, acc)
    else
      var (c1, f) := EmitPlaced(c, ms[i], ct);
      var (c2, acc') := EmitBinary(c1, Bor, f, acc);
      EmitMembers(c2, ms, i + 1, ct, acc')
  }

  function EmitPack(c: Ctx, ms: seq<Member>, ct: Ty): (r: (Ctx, Id))
    requires Valid(c)
    ensures Valid(r.0)
  {
    var (c1, zero) := EmitIconst(c, I64, 0);
    EmitMembers(c1, ms, 0, ct, zero)
  }

  function EmitMask(c: Ctx, shifted: Id, m: Member, total: nat, signed: bool): (r: (Ctx, Id))
    requires Valid(c)
    ensures Valid(r.0)
  {
    var (c3, mask) := EmitIconst(c, if 8 * total <= 32 then I32 else I64, Pow2(8 * m.size) - 1);
    var (c4, masked) := EmitBinary(c3, Band, shifted, mask);
    if signed && m.size < total then EmitSextend(c4, m.reg, masked) else (c4, masked)
  }

  /** Field access: the whole register, or a shift and a mask as wide as the struct; signed narrow fields
      ask for a sign extension. */
  function EmitUnpack(c: Ctx, obj: Id, m: Member, total: nat, signed: bool): (r: (Ctx, Id))
    requires Valid(c)
    ensures Valid(r.0)
  {
    if m.off == 0 && m.size >= total then (c, obj)
    else
      var (c1, shift) := EmitIconst(c, I64, 8 * m.off);
      var (c2, shifted) := EmitBinary(c1, Ushr, obj, shift);
      EmitMask(c2, shifted, m, total, signed)
  }

  // ---- running two operands of either width ----

  predicate Register(v: Value) {
    v.ty == I32 || v.ty == I64
  }

  function Wide(v: Value): (r: Value)
    requires Register(v)
    ensures r.ty == I64 && r.bits == v.bits
  {
    Pow2Mono(v.ty, I64);
    Val(I64, v.bits)
  }

  /** Extending an operand to sixty-four bits. */
  lemma WidenRun(c: Ctx, id: Id, v: Value, start: Env, env: Env)
    requires Arrives(c, start, env) && Carries(c, env, id, v) && v.ty == I32
    ensures var (c', w) := Def(c, Instr.Uextend(c.next, I64, id), I64);
      var env' := env[w := Wide(v)];
      Arrives(c', start, env') && Carries(c', env', w, Wide(v)) && Later(c, c', env, env')
  {
    hide Pow2, Exec;
    DefRun(c, Instr.Uextend(c.next, I64, id), Wide(v), start, env);
  }

  /** Values of c's code are values of c''s, and nothing but new ids was written. */
  ghost predicate Later(c: Ctx, c': Ctx, env: Env, env': Env) {
    && c.next <= c'.next && (forall id | id in c.types :: id in c'.types && c'.types[id] == c.types[id])
    && Wrote(c, c', env, env')
  }

  lemma LaterTrans(c: Ctx, c1: Ctx, c2: Ctx, env: Env, env1: Env, env2: Env)
    requires Later(c, c1, env, env1) && Later(c1, c2, env1, env2)
    ensures Later(c, c2, env, env2)
  {
  }

  lemma CarriesOn(c: Ctx, c': Ctx, env: Env, env': Env, id: Id, v: Value)
    requires Carries(c, env, id, v) && Later(c, c', env, env')
    ensures Carries(c', env', id, v)
  {
    hide Exec;
  }

  /** A binary operation on two equally wide operands. */
  lemma SameWidthRun(c: Ctx, op: BinOp, l: Id, r: Id, x: Value, y: Value, z: nat, start: Env, env: Env)
    requires Arrives(c, start, env) && Carries(c, env, l, x) && Carries(c, env, r, y) && x.ty == y.ty == I64
    requires Arith(op, I64, x.bits, y.bits) == Some(z)
    ensures var (c', id) := Def(c, Instr.Binary(c.next, op, l, r), I64);
      var v: Value := Val(I64, z);
      var env' := env[id := v];
      Arrives(c', start, env') && Carries(c', env', id, v) && Later(c, c', env, env')
  {
    hide Pow2, Exec, Arith;
    DefRun(c, Instr.Binary(c.next, op, l, r), Val(I64, z), start, env);
  }

  /** A binary operation whose right operand has sixty-four bits. */
  lemma RightWideRun(c: Ctx, op: BinOp, l: Id, r: Id, x: Value, y: Value, z: nat, start: Env, env: Env)
    returns (env': Env)
    requires Arrives(c, start, env) && Carries(c, env, l, x) && Carries(c, env, r, y) && Register(x) && y.ty == I64
    requires Arith(op, I64, Wide(x).bits, y.bits) == Some(z)
    ensures var (c', id) := EmitBinary(c, op, l, r);
      z < Pow2(I64) && Arrives(c', start, env') && Carries(c', env', id, Val(I64, z)) && Later(c, c', env, env')
  {
    hide Pow2, Exec, Arith, Exec1;
    if x.ty == I64 {
      SameWidthRun(c, op, l, r, x, y, z, start, env);
      env' := env[c.next := Val(I64, z)];
    } else {
      WidenRun(c, l, x, start, env);
      var (c1, l1) := Def(c, Instr.Uextend(c.next, I64, l), I64);
      var env1 := env[l1 := Wide(x)];
      CarriesOn(c, c1, env, env1, r, y);
      SameWidthRun(c1, op, l1, r, Wide(x), y, z, start, env1);
      env' := env1[c1.next := Val(I64, z)];
      LaterTrans(c, c1, Def(c1, Instr.Binary(c1.next, op, l1, r), I64).0, env, env1, env');
    }
  }

  /** The same with the wide operand on the left. */
  lemma LeftWideRun(c: Ctx, op: BinOp, l: Id, r: Id, x: Value, y: Value, z: nat, start: Env, env: Env)
    returns (env': Env)
    requires Arrives(c, start, env) && Carries(c, env, l, x) && Carries(c, env, r, y) && x.ty == I64 && Register(y)
    requires Arith(op, I64, x.bits, Wide(y).bits) == Some(z)
    ensures var (c', id) := EmitBinary(c, op, l, r);
      z < Pow2(I64) && Arrives(c', start, env') && Carries(c', env', id, Val(I64, z)) && Later(c, c', env, env')
  {
    hide Pow2, Exec, Arith, Exec1;
    if y.ty == I64 {
      SameWidthRun(c, op, l, r, x, y, z, start, env);
      env' := env[c.next := Val(I64, z)];
    } else {
      WidenRun(c, r, y, start, env);
      var (c1, r1) := Def(c, Instr.Uextend(c.next, I64, r), I64);
      var env1 := env[r1 := Wide(y)];
      CarriesOn(c, c1, env, env1, l, x);
      SameWidthRun(c1, op, l, r1, x, Wide(y), z, start, env1);
      env' := env1[c1.next := Val(I64, z)];
      LaterTrans(c, c1, Def(c1, Instr.Binary(c1.next, op, l, r1), I64).0, env, env1, env');
    }
  }

  // ---- constants ----

  lemma SmallWord(n: nat)
    requires n <= 64
    ensures n < Pow2(I64) && Wrap(n, I64) == n
  {
    Pow2Mono(7, I64);
    assert Pow2(7) == 128;
    hide Pow2;
    ModSmall(n, Pow2(I64));
  }

  lemma ConstRun(c: Ctx, ty: Ty, n: nat, start: Env, env: Env) returns (env': Env)
    requires Arrives(c, start, env) && n < Pow2(ty)
    ensures var (c', id) := EmitIconst(c, ty, n);
      Arrives(c', start, env') && Carries(c', env', id, Val(ty, n)) && Later(c, c', env, env')
  {
    hide Pow2, Exec;
    ModSmall(n, Pow2(ty));
    IconstRun(c, ty, n, start, env);
    env' := env[c.next := Val(ty, n)];
  }

  // ---- packing ----

  function FieldOf(m: Member, bits: nat): RS.Field {
    RS.Field(m.off, m.size, bits)
  }

  function Fields(ms: seq<Member>, vs: seq<Value>): (r: seq<RS.Field>)
    requires |vs| == |ms|
    ensures |r| == |ms| && forall i | 0 <= i < |ms| :: r[i] == FieldOf(ms[i], vs[i].bits)
  {
    seq(|ms|, i requires 0 <= i < |ms| => FieldOf(ms[i], vs[i].bits))
  }

  lemma ShiftIsPlaced(m: Member, bits: nat)
    requires m.off < 8 && bits < Pow2(I64)
    ensures 8 * m.off < Pow2(I64) && Arith(Ishl, I64, bits, 8 * m.off) == Some(RS.Placed(FieldOf(m, bits), I64))
  {
    hide Pow2, Wrap, Bitwise;
    SmallWord(8 * m.off);
    ModSmall(8 * m.off, 64);
  }

  lemma UnshiftedPlaced(m: Member, bits: nat)
    requires m.off == 0 && bits < Pow2(I64)
    ensures RS.Placed(FieldOf(m, bits), I64) == bits
  {
    RS.PowZero();
    hide Pow2;
    ModSmall(bits, Pow2(I64));
  }

  /** The two register types of a struct of at most eight bytes. */
  predicate StructReg(ct: Ty) {
    ct == I32 || ct == I64
  }

  lemma ExtendRun(c: Ctx, m: Member, ct: Ty, v: Value, start: Env, env: Env) returns (env': Env, u: Value)
    requires Arrives(c, start, env) && Carries(c, env, m.id, v) && v.ty == m.reg && Register(v) && StructReg(ct)
    ensures var (c', id) := if m.reg != ct then EmitUextend(c, ct, m.id) else (c, m.id);
      && Arrives(c', start, env') && Carries(c', env', id, u) && Later(c, c', env, env')
      && Register(u) && u.bits == v.bits
  {
    hide Pow2, Exec;
    if m.reg == I32 && ct == I64 {
      WidenRun(c, m.id, v, start, env);
      env', u := env[c.next := Wide(v)], Wide(v);
    } else {
      env', u := env, v;
    }
  }

  lemma PlacedRun(c: Ctx, m: Member, ct: Ty, v: Value, start: Env, env: Env) returns (env': Env, u: Value)
    requires Arrives(c, start, env) && Carries(c, env, m.id, v) && v.ty == m.reg && Register(v) && StructReg(ct)
    requires m.off < 8
    ensures var (c', id) := EmitPlaced(c, m, ct);
      && Arrives(c', start, env') && Carries(c', env', id, u) && Later(c, c', env, env')
      && Register(u) && u.bits == RS.Placed(FieldOf(m, v.bits), I64)
  {
    hide Pow2, Exec, Arith, RS.Placed, EmitBinary, EmitUextend;
    env', u := ExtendRun(c, m, ct, v, start, env);
    var (c1, f) := if m.reg != ct then EmitUextend(c, ct, m.id) else (c, m.id);
    var b := Wide(v).bits;
    if m.off == 0 {
      UnshiftedPlaced(m, b);
    } else {
      var env1 := env';
      ShiftIsPlaced(m, b);
      var env2 := ConstRun(c1, I64, 8 * m.off, start, env1);
      var (c2, shift) := EmitIconst(c1, I64, 8 * m.off);
      CarriesOn(c1, c2, env1, env2, f, u);
      LaterTrans(c, c1, c2, env, env1, env2);
      env' := RightWideRun(c2, Ishl, f, shift, u, Val(I64, 8 * m.off), RS.Placed(FieldOf(m, b), I64), start, env2);
      LaterTrans(c, c2, EmitBinary(c2, Ishl, f, shift).0, env, env2, env');
      u := Val(I64, RS.Placed(FieldOf(m, b), I64));
    }
  }

  /** The fields' registers hold the values vs. */
  ghost predicate Holds(c: Ctx, env: Env, ms: seq<Member>, vs: seq<Value>) {
    |vs| == |ms| && forall i | 0 <= i < |ms| ::
      Carries(c, env, ms[i].id, vs[i]) && vs[i].ty == ms[i].reg && Register(vs[i]) && ms[i].off < 8
  }

  lemma HoldsOn(c: Ctx, c': Ctx, env: Env, env': Env, ms: seq<Member>, vs: seq<Value>)
    requires Holds(c, env, ms, vs) && Later(c, c', env, env')
    ensures Holds(c', env', ms, vs)
  {
    hide Later;
    forall i | 0 <= i < |ms| ensures Carries(c', env', ms[i].id, vs[i]) {
      CarriesOn(c, c', env, env', ms[i].id, vs[i]);
    }
  }

  /** A sixty-four bit word. */
  type Wide64 = v: Value | v.ty == I64 witness Val(I64, 0)

  function Joined(u: Value, a: Wide64): (r: Wide64)
    requires Register(u)
  {
    Val(I64, Bitwise(Or, I64, Wide(u).bits, a.bits))
  }

  lemma OrRun(c: Ctx, f: Id, acc: Id, u: Value, a: Wide64, start: Env, env: Env) returns (env': Env)
    requires Arrives(c, start, env) && Carries(c, env, f, u) && Register(u) && Carries(c, env, acc, a)
    ensures var (c', id) := EmitBinary(c, Bor, f, acc);
      Arrives(c', start, env') && Carries(c', env', id, Joined(u, a)) && Later(c, c', env, env')
  {
    hide Pow2, Exec, Bitwise, EmitBinary;
    env' := RightWideRun(c, Bor, f, acc, u, a, Joined(u, a).bits, start, env);
  }

  lemma {:induction false} MembersRun(c: Ctx, ms: seq<Member>, vs: seq<Value>, i: nat, ct: Ty, acc: Id, a: Wide64,
        start: Env, env: Env)
    returns (env': Env)
    requires Arrives(c, start, env) && Holds(c, env, ms, vs) && StructReg(ct) && i <= |ms|
    requires Carries(c, env, acc, a)
    ensures var (c', id) := EmitMembers(c, ms, i, ct, acc);
      && Arrives(c', start, env') && Later(c, c', env, env')
      && Carries(c', env', id, Val(I64, RS.PackFrom(Fields(ms, vs), i, a.bits, I64)))
    decreases |ms| - i
  {
    hide Pow2, Exec, Bitwise, EmitBinary, EmitPlaced, RS.Placed, Later, Carries, Holds;
    if i == |ms| {
      LaterSame(c, env);
      env' := env;
    } else {
      HoldsAt(c, env, ms, vs, i);
      var env1, u := PlacedRun(c, ms[i], ct, vs[i], start, env);
      var (c1, f) := EmitPlaced(c, ms[i], ct);
      CarriesOn(c, c1, env, env1, acc, a);
      var env2 := OrRun(c1, f, acc, u, a, start, env1);
      var (c2, acc') := EmitBinary(c1, Bor, f, acc);
      LaterTrans(c, c1, c2, env, env1, env2);
      HoldsOn(c, c2, env, env2, ms, vs);
      env' := MembersRun(c2, ms, vs, i + 1, ct, acc', Joined(u, a), start, env2);
      LaterTrans(c, c2, EmitMembers(c2, ms, i + 1, ct, acc').0, env, env2, env');
    }
  }

  lemma LaterSame(c: Ctx, env: Env)
    ensures Later(c, c, env, env)
  {
  }

  lemma HoldsAt(c: Ctx, env: Env, ms: seq<Member>, vs: seq<Value>, i: nat)
    requires Holds(c, env, ms, vs) && i < |ms|
    ensures |vs| == |ms|
    ensures Carries(c, env, ms[i].id, vs[i]) && vs[i].ty == ms[i].reg && Register(vs[i]) && ms[i].off < 8
  {
  }

  /** The emitted packing, run on fields of either width, leaves the packed word in sixty-four bits. */
  lemma PackRun(c: Ctx, ms: seq<Member>, vs: seq<Value>, ct: Ty, start: Env, env: Env) returns (env': Env)
    requires Arrives(c, start, env) && Holds(c, env, ms, vs) && StructReg(ct)
    ensures var (c', id) := EmitPack(c, ms, ct);
      && Arrives(c', start, env') && Later(c, c', env, env')
      && Carries(c', env', id, Val(I64, RS.Pack(Fields(ms, vs), I64)))
  {
    hide Pow2, Exec, EmitMembers, Later, Carries, Holds, RS.PackFrom;
    SmallWord(0);
    var env1 := ConstRun(c, I64, 0, start, env);
    var (c1, zero) := EmitIconst(c, I64, 0);
    HoldsOn(c, c1, env, env1, ms, vs);
    env' := MembersRun(c1, ms, vs, 0, ct, zero, Val(I64, 0), start, env1);
    LaterTrans(c, c1, EmitMembers(c1, ms, 0, ct, zero).0, env, env1, env');
  }

  // ---- unpacking ----

  lemma MaskFits(size: nat, total: nat)
    requires size <= total <= 8
    ensures Pow2(8 * size) - 1 >= 0
    ensures Pow2(8 * size) - 1 < Pow2(if 8 * total <= 32 then I32 else I64)
    ensures Pow2(8 * size) - 1 < Pow2(I64)
  {
    Pow2Mono(8 * size, if 8 * total <= 32 then I32 else I64);
    Pow2Mono(8 * size, I64);
    hide Pow2;
  }

  lemma ShiftIsDown(x: nat, off: nat)
    requires off < 8 && x < Pow2(I64)
    ensures 8 * off < Pow2(I64) && Arith(Ushr, I64, x, 8 * off) == Some(RS.ShiftRight(x, 8 * off, I64))
  {
    hide Pow2, Wrap, Bitwise;
    SmallWord(8 * off);
    ModSmall(8 * off, 64);
  }

  /** What reading a member leaves: the object's own register, or a sixty-four bit one. */
  function ReadValue(v: Value, m: Member, total: nat): (r: Value)
    requires Register(v) && m.off + m.size <= total <= 8
  {
    if m.off == 0 && m.size >= total then v
    else Val(I64, RS.Unpack(Wide(v).bits, m.off, m.size, total, I64))
  }

  /** Reading a field of a struct held in a register of either width; the sign extension is never emitted,
      because the masked word already has sixty-four bits. */
  lemma UnpackRun(c: Ctx, obj: Id, v: Value, m: Member, total: nat, signed: bool, start: Env, env: Env)
    returns (env': Env)
    requires Arrives(c, start, env) && Carries(c, env, obj, v) && Register(v)
    requires m.off < 8 && m.off + m.size <= total <= 8 && StructReg(m.reg)
    ensures var (c', id) := EmitUnpack(c, obj, m, total, signed);
      Arrives(c', start, env') && Carries(c', env', id, ReadValue(v, m, total)) && Later(c, c', env, env')
  {
    hide Pow2, Exec, Arith, EmitBinary, RS.ShiftRight, Bitwise;
    if m.off == 0 && m.size >= total {
      env' := env;
    } else {
      var x := Wide(v).bits;
      ShiftIsDown(x, m.off);
      var env1 := ConstRun(c, I64, 8 * m.off, start, env);
      var (c1, shift) := EmitIconst(c, I64, 8 * m.off);
      CarriesOn(c, c1, env, env1, obj, v);
      var y: Wide64 := Val(I64, RS.ShiftRight(x, 8 * m.off, I64));
      var env2 := RightWideRun(c1, Ushr, obj, shift, v, Val(I64, 8 * m.off), y.bits, start, env1);
      var (c2, shifted) := EmitBinary(c1, Ushr, obj, shift);
      LaterTrans(c, c1, c2, env, env1, env2);
      env' := MaskRun(c2, shifted, y, m, total, signed, start, env2);
      LaterTrans(c, c2, EmitMask(c2, shifted, m, total, signed).0, env, env2, env');
    }
  }

  function Masked(y: Wide64, size: nat): (r: Wide64)
    requires size <= 8
  {
    Val(I64, Bitwise(And, I64, y.bits, RS.Mask(8 * size, I64)))
  }

  lemma MaskRun(c: Ctx, shifted: Id, y: Wide64, m: Member, total: nat, signed: bool, start: Env, env: Env)
    returns (env': Env)
    requires Arrives(c, start, env) && Carries(c, env, shifted, y) && m.size <= total <= 8 && StructReg(m.reg)
    ensures var (c', id) := EmitMask(c, shifted, m, total, signed);
      Arrives(c', start, env') && Later(c, c', env, env') && Carries(c', env', id, Masked(y, m.size))
  {
    hide Pow2, Exec, EmitBinary, Bitwise;
    MaskFits(m.size, total);
    var ty: Ty, k: nat := if 8 * total <= 32 then I32 else I64, Pow2(8 * m.size) - 1;
    var env3 := ConstRun(c, ty, k, start, env);
    var (c3, mask) := EmitIconst(c, ty, k);
    CarriesOn(c, c3, env, env3, shifted, y);
    env' := LeftWideRun(c3, Band, shifted, mask, y, Val(ty, k), Masked(y, m.size).bits, start, env3);
    LaterTrans(c, c3, EmitBinary(c3, Band, shifted, mask).0, env, env3, env');
  }

  // ---- round trip ----

  /** Packing fields and reading one back, as compiled: its register's contents come back for every
      layout without overlap whose registers fit their fields. */
  lemma PackUnpackRun(c: Ctx, ms: seq<Member>, vs: seq<Value>, ct: Ty, total: nat, k: nat, signed: bool,
        start: Env, env: Env)
    returns (env': Env)
    requires Arrives(c, start, env) && Holds(c, env, ms, vs) && StructReg(ct) && total <= 8 && k < |ms|
    requires RS.Layout(Fields(ms, vs), total, I64) && RS.AllFit(Fields(ms, vs))
    ensures var (c1, obj) := EmitPack(c, ms, ct);
      var (c2, id) := EmitUnpack(c1, obj, ms[k], total, signed);
      && Arrives(c2, start, env') && Later(c, c2, env, env')
      && Carries(c2, env', id, Val(I64, Wide(vs[k]).bits))
  {
    hide Pow2, Exec, EmitPack, EmitUnpack, Later, Carries, RS.Pack, Bitwise;
    var fields := Fields(ms, vs);
    HoldsAt(c, env, ms, vs, k);
    var env1 := PackRun(c, ms, vs, ct, start, env);
    var (c1, obj) := EmitPack(c, ms, ct);
    var v := Val(I64, RS.Pack(fields, I64));
    assert fields[k] == FieldOf(ms[k], vs[k].bits);
    RS.RoundTrip(fields, total, I64, k);
    assert ReadValue(v, ms[k], total) == Wide(vs[k]);
    env' := UnpackRun(c1, obj, v, ms[k], total, signed, start, env1);
    LaterTrans(c, c1, EmitUnpack(c1, obj, ms[k], total, signed).0, env, env1, env');
  }
}

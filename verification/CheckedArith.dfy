/** The overflow tests behind checked integer arithmetic, stated for words of any width w >= 1
    and compared with the mathematical result. */
module CheckedArith {
  import opened Words

  /** The values a signed or an unsigned word of width w can hold. */
  predicate Fits(signed: bool, v: int, w: nat)
    requires w > 0
  {
    if signed then -Pow2(w - 1) <= v < Pow2(w - 1) else 0 <= v < Pow2(w)
  }

  /** The number a word stands for. */
  function Meaning(signed: bool, x: nat, w: nat): (v: int)
    requires w > 0 && x < Pow2(w)
    ensures Fits(signed, v, w)
  {
    if signed then Signed(x, w) else x
  }

  lemma WrapMeaning(signed: bool, x: nat, w: nat)
    requires w > 0 && x < Pow2(w)
    ensures Wrap(Meaning(signed, x, w), w) == x
  {
    if signed { WrapSigned(x, w); } else { ModSmall(x, Pow2(w)); }
  }

  lemma MeaningWrap(signed: bool, v: int, w: nat)
    requires w > 0 && Fits(signed, v, w)
    ensures Meaning(signed, Wrap(v, w), w) == v
  {
    if signed { SignedWrap(v, w); } else { ModSmall(v, Pow2(w)); }
  }

  /** A result fits exactly when the wrapped word still stands for it. */
  lemma FitsIffExact(signed: bool, v: int, w: nat)
    requires w > 0
    ensures Fits(signed, v, w) <==> Meaning(signed, Wrap(v, w), w) == v
  {
    if Fits(signed, v, w) { MeaningWrap(signed, v, w); }
  }

  // ---- the tests, as the emitted instructions compute them ----

  function SignBit(x: nat, w: nat): bool
    requires w > 0 && x < Pow2(w)
  {
    Signed(x, w) < 0
  }

  /** Both operands' signs differ from the sum's. */
  function AddFlagSigned(a: nat, b: nat, w: nat): bool
    requires w > 0 && a < Pow2(w) && b < Pow2(w)
  {
    var r := Wrap(a + b, w);
    SignBit(Bitwise(And, w, Bitwise(Xor, w, r, a), Bitwise(Xor, w, r, b)), w)
  }

  function SubFlagSigned(a: nat, b: nat, w: nat): bool
    requires w > 0 && a < Pow2(w) && b < Pow2(w)
  {
    var r := Wrap(a - b, w);
    SignBit(Bitwise(And, w, Bitwise(Xor, w, a, b), Bitwise(Xor, w, a, r)), w)
  }

  /** The divisor the guarded division uses: 1 in place of 0 and, when signed, of -1. */
  function SafeDivisor(signed: bool, a: nat, w: nat): (d: nat)
    requires w > 0 && a < Pow2(w)
    ensures d < Pow2(w)
    ensures Meaning(signed, d, w) != 0 || w == 1
    ensures signed ==> Signed(d, w) != -1 || w == 1
  {
    if a == 0 || (signed && a == Pow2(w) - 1) then 1 else a
  }

  /** The common flag formula of multiplication and remainder, over a value already computed. */
  function DivFlag(signed: bool, value: nat, a: nat, b: nat, w: nat): bool
    requires w > 1 && value < Pow2(w) && a < Pow2(w) && b < Pow2(w)
  {
    var d := Meaning(signed, SafeDivisor(signed, a, w), w);
    if a == 0 then false
    else if signed && a == Pow2(w) - 1 then b == Pow2(w - 1)
    else Wrap(TruncDiv(Meaning(signed, value, w), d), w) != b
  }

  // ---- what they decide ----

  lemma SignOfBitwise(op: BitOp, w: nat, a: nat, b: nat)
    requires w > 0 && a < Pow2(w) && b < Pow2(w)
    ensures SignBit(Bitwise(op, w, a, b), w) == op.Apply(SignBit(a, w), SignBit(b, w))
  {
  }

  lemma AddSignedExact(a: nat, b: nat, w: nat)
    requires w > 0 && a < Pow2(w) && b < Pow2(w)
    ensures Wrap(a + b, w) == Wrap(Signed(a, w) + Signed(b, w), w)
    ensures AddFlagSigned(a, b, w) <==> !Fits(true, Signed(a, w) + Signed(b, w), w)
  {
    hide Bitwise;
    var r := Wrap(a + b, w);
    WrapNear(a + b, w);
    hide Wrap;
    WrapNear(Signed(a, w) + Signed(b, w), w);
    SignOfBitwise(Xor, w, r, a);
    SignOfBitwise(Xor, w, r, b);
    SignOfBitwise(And, w, Bitwise(Xor, w, r, a), Bitwise(Xor, w, r, b));
  }

  lemma SubSignedExact(a: nat, b: nat, w: nat)
    requires w > 0 && a < Pow2(w) && b < Pow2(w)
    ensures Wrap(a - b, w) == Wrap(Signed(a, w) - Signed(b, w), w)
    ensures SubFlagSigned(a, b, w) <==> !Fits(true, Signed(a, w) - Signed(b, w), w)
  {
    hide Bitwise, Wrap;
    var h, r := Pow2(w - 1), Wrap(a - b, w);
    var x, y := Signed(a, w), Signed(b, w);
    assert Pow2(w) == 2 * h;
    hide Pow2;
    WrapNear(a - b, w);
    WrapNear(x - y, w);
    BorrowSign(a, b, h, r);
    var s, t := Bitwise(Xor, w, a, b), Bitwise(Xor, w, a, r);
    SignOfBitwise(Xor, w, a, b);
    SignOfBitwise(Xor, w, a, r);
    SignOfBitwise(And, w, s, t);
    assert SubFlagSigned(a, b, w) == ((a < h) != (b < h) && (a < h) != (r < h));
  }

  lemma BorrowSign(a: nat, b: nat, h: int, r: int)
    requires a < 2 * h && b < 2 * h && r == if a < b then a - b + 2 * h else a - b
    ensures var x, y := if a < h then a else a - 2 * h, if b < h then b else b - 2 * h;
      && -2 * h <= x - y < 2 * h
      && r == (if x - y < 0 then x - y + 2 * h else x - y)
      && ((a < h) != (b < h) && (a < h) != (r < h) <==> !(-h <= x - y < h))
  {
  }

  lemma AddUnsignedExact(a: nat, b: nat, w: nat)
    requires w > 0 && a < Pow2(w) && b < Pow2(w)
    ensures Wrap(a + b, w) < a <==> !Fits(false, a + b, w)
  {
    WrapNear(a + b, w);
  }

  lemma SubUnsignedExact(a: nat, b: nat, w: nat)
    requires w > 0 && a < Pow2(w) && b < Pow2(w)
    ensures a < b <==> !Fits(false, a - b, w)
  {
  }

  /** Both multiplications: the flag is set exactly when the true product does not fit. */
  lemma MulExact(signed: bool, a: nat, b: nat, w: nat)
    requires w > 1 && a < Pow2(w) && b < Pow2(w)
    ensures Wrap(a * b, w) == Wrap(Meaning(signed, a, w) * Meaning(signed, b, w), w)
    ensures DivFlag(signed, Wrap(a * b, w), a, b, w)
       <==> !Fits(signed, Meaning(signed, a, w) * Meaning(signed, b, w), w)
  {
    var x, y := Meaning(signed, a, w), Meaning(signed, b, w);
    var n := Pow2(w);
    ProductCongruent(signed, a, b, w);
    var r := Wrap(a * b, w);
    var p := x * y;
    if a == 0 {
      assert x == 0 && p == 0;
    } else if signed && a == n - 1 {
      assert x == -1 && p == -y;
      WrapMeaning(true, b, w);
    } else {
      var v := Meaning(signed, r, w);
      FitsIffExact(signed, p, w);
      var k := SameResidue(signed, v, p, w);
      QuotientFits(signed, v, x, w);
      QuotientDecides(v, x, y, k, n);
      MeaningWrap(signed, TruncDiv(v, x), w);
      WrapMeaning(signed, b, w);
    }
  }

  /** Dividing a wrapped product by a factor gives the other factor only if nothing was lost. */
  lemma QuotientDecides(v: int, x: int, y: int, k: int, n: int)
    requires x != 0 && -n < x < n && v - x * y == k * n
    ensures TruncDiv(v, x) == y <==> v == x * y
  {
    if v == x * y {
      TruncDivExact(x, y);
    } else if TruncDiv(v, x) == y {
      RemainderSmall(v, x);
      TooSmall(k, n, v - x * y);
    }
  }

  lemma ProductCongruent(signed: bool, a: nat, b: nat, w: nat)
    requires w > 0 && a < Pow2(w) && b < Pow2(w)
    ensures Wrap(a * b, w) == Wrap(Meaning(signed, a, w) * Meaning(signed, b, w), w)
  {
    var n := Pow2(w);
    var x, y := Meaning(signed, a, w), Meaning(signed, b, w);
    var i, j := if x == a then 0 else 1, if y == b then 0 else 1;
    assert a == x + i * n && b == y + j * n;
    var k := x * j + y * i + i * j * n;
    assert a * b == x * y + k * n by { ExpandProduct(x, y, i, j, n); }
    WrapCongruent(a * b, x * y, k, w);
  }

  lemma ExpandProduct(x: int, y: int, i: int, j: int, n: int)
    ensures (x + i * n) * (y + j * n) == x * y + (x * j + y * i + i * j * n) * n
  {
  }

  lemma TruncDivExact(x: int, y: int)
    requires x != 0
    ensures TruncDiv(x * y, x) == y
  {
    var p := x * y;
    if p >= 0 {
      DivExact(p, x, y);
    } else {
      assert -p == x * (-y);
      DivExact(-p, x, -y);
    }
  }

  lemma DivExact(p: int, x: int, y: int)
    requires x != 0 && p == x * y && p >= 0
    ensures p / x == y
  {
    var q, r := p / x, p % x;
    assert p == x * q + r;
    assert x * (y - q) == r;
    if y != q { Multiple(x, y - q); }
  }

  lemma Multiple(x: int, d: int)
    requires x != 0 && d != 0
    ensures x * d >= (if x > 0 then x else -x) || x * d < 0
  {
    var ax := if x > 0 then x else -x;
    if x > 0 && d > 0 { MulGrows(d, x); }
    if x < 0 && d < 0 { assert x * d == (-d) * (-x); MulGrows(-d, -x); }
    if x > 0 && d < 0 { assert x * d == -((-d) * x); MulGrows(-d, x); }
    if x < 0 && d > 0 { assert x * d == -(d * (-x)); MulGrows(d, -x); }
  }

  lemma RemainderSmall(v: int, x: int)
    requires x != 0
    ensures -(if x > 0 then x else -x) < TruncRem(v, x) < (if x > 0 then x else -x)
  {
    if v >= 0 {
      assert v == x * (v / x) + v % x;
    } else {
      assert -v == x * ((-v) / x) + (-v) % x;
      assert x * (-((-v) / x)) == -(x * ((-v) / x));
    }
  }

  lemma SameResidue(signed: bool, v: int, p: int, w: nat) returns (k: int)
    requires w > 0 && v == Meaning(signed, Wrap(p, w), w)
    ensures v - p == k * Pow2(w)
  {
    var n := Pow2(w);
    var k' := WrapDecompose(p, w);
    k := if v == Wrap(p, w) then -k' else -1 - k';
    MulNeg(k', n);
  }

  lemma TooSmall(k: int, n: int, d: int)
    requires n > 0 && d == k * n && -n < d < n
    ensures k == 0
  {
    if k > 0 { MulGrows(k, n); }
    if k < 0 { MulGrows(-k, n); MulNeg(k, n); }
  }

  /** Away from the divisors 0 and -1 a truncated quotient of a word is again a word. */
  lemma QuotientFits(signed: bool, v: int, x: int, w: nat)
    requires w > 0 && Fits(signed, v, w) && Fits(signed, x, w) && x != 0 && x != -1
    ensures Fits(signed, TruncDiv(v, x), w)
  {
    if x == 1 {
      TruncDivExact(1, v);
    } else {
      HalfBound(v, x);
    }
  }

  lemma HalfBound(v: int, x: int)
    requires x >= 1 || x <= -2
    ensures v >= 0 && x >= 1 ==> 0 <= TruncDiv(v, x) <= v
    ensures x >= 1 && v < 0 ==> v <= TruncDiv(v, x) <= 0
    ensures x <= -2 && v >= 0 ==> -v <= TruncDiv(v, x) <= 0
    ensures x <= -2 && v < 0 ==> 0 <= 2 * TruncDiv(v, x) <= -v
  {
    MagnitudeBound(if v >= 0 then v else -v, x);
  }

  lemma MagnitudeBound(m: int, x: int)
    requires m >= 0
    requires x >= 1 || x <= -2
    ensures x >= 1 ==> 0 <= m / x <= m
    ensures x <= -2 ==> -m <= 2 * (m / x) <= 0
  {
    var q, r := m / x, m % x;
    assert m == x * q + r && 0 <= r < (if x > 0 then x else -x);
    if x >= 1 {
      if q < 0 { TimesAtMost(x, q, x); }
      if q > 0 { TimesAtLeast(x, q, 1); }
    } else {
      if q > 0 { TimesAtMost(q, x, -x); }
      if q < 0 { TimesAtLeast(-x, -q, 2); NegProduct(x, -q); NegProduct(-q, -x); }
    }
  }

  lemma TimesAtMost(p: int, n: int, d: int)
    requires p >= 1 && n <= -1 && (d == p || d == -n)
    ensures p * n <= -d
  {
    if d == p { MulGrows(-n, p); NegProduct(p, -n); } else { MulGrows(p, -n); NegProduct(p, -n); }
  }

  lemma TimesAtLeast(p: int, k: int, c: int)
    requires p >= c && k >= 1
    ensures p * k >= c * k
  {
    SameSign(p - c, k);
    assert p * k == (p - c) * k + c * k;
  }

  /** The remainder reuses the multiplication formula over its own value.  The only remainder whose
      quotient is unrepresentable is the least word by -1; for a non-zero divisor the flag agrees
      with that exactly on the listed operands, and is set wrongly on all others. */
  lemma SremFlagExact(a: nat, b: nat, w: nat)
    requires w > 1 && a < Pow2(w) && b < Pow2(w) && b != 0
    ensures var x, y := Signed(a, w), Signed(b, w);
      (DivFlag(true, Wrap(TruncRem(x, y), w), a, b, w) <==> !Fits(true, TruncDiv(x, y), w))
      <==> (a == 0 || (x == -1 && y != -Pow2(w - 1)) || (x == -Pow2(w - 1) && y == -1))
  {
    var x, y := Signed(a, w), Signed(b, w);
    var h := Pow2(w - 1);
    WrapSigned(a, w);
    WrapSigned(b, w);
    QuotientOverflow(x, y, h);
    if a != 0 && x != -1 {
      var v := TruncRem(x, y);
      RemainderShape(x, y);
      RemainderSmall(x, y);
      SignedWrap(v, w);
      if v == x { TruncDivExact(x, 1); } else { SmallOverLarge(v, x); }
      assert TruncDiv(v, x) == (if v == x then 1 else 0);
      ModSmall(1, Pow2(w));
      ModSmall(0, Pow2(w));
    }
  }

  lemma QuotientOverflow(x: int, y: int, h: int)
    requires h > 1 && -h <= x < h && -h <= y < h && y != 0
    ensures -h <= TruncDiv(x, y) < h <==> !(x == -h && y == -1)
  {
    if y == -1 {
      TruncDivExact(-1, -x);
    } else {
      HalfBound(x, y);
    }
  }

  /** A truncated remainder keeps the dividend's sign, and is the dividend only under a larger divisor. */
  lemma RemainderShape(x: int, y: int)
    requires y != 0 && x != 0
    ensures x > 0 ==> 0 <= TruncRem(x, y) <= x
    ensures x < 0 ==> x <= TruncRem(x, y) <= 0
    ensures TruncRem(x, y) == x ==> y != 1
  {
    if x >= 0 {
      RemainderLeq(x, y);
    } else {
      RemainderLeq(-x, y);
      NegProduct(y, (-x) / y);
    }
  }

  lemma NegProduct(y: int, q: int)
    ensures y * -q == -(y * q)
  {
  }

  lemma RemainderLeq(m: nat, y: int)
    requires y != 0
    ensures 0 <= m - y * (m / y) <= m
    ensures y == 1 ==> m - y * (m / y) == 0
  {
    var q, r := m / y, m % y;
    assert m == y * q + r && 0 <= r < (if y > 0 then y else -y);
    if y > 0 && q < 0 {
      MulGrows(-q, y);
      NegProduct(y, -q);
    }
    if y < 0 && q > 0 {
      MulGrows(q, -y);
      NegProduct(q, -y);
    }
    SameSign(y, q);
  }

  lemma SameSign(y: int, q: int)
    ensures (y >= 0 && q >= 0) || (y <= 0 && q <= 0) ==> y * q >= 0
  {
  }

  lemma SmallOverLarge(v: int, x: int)
    requires x > 0 ==> 0 <= v < x
    requires x < 0 ==> x < v <= 0
    requires x != 0
    ensures TruncDiv(v, x) == 0
  {
    var m := if v >= 0 then v else -v;
    if x > 0 {
      ModUnique(m, x, 0, m);
    } else if v != 0 {
      var q, r := m / x, m % x;
      assert m == x * q + r;
      if q > 0 { MulGrows(q, -x); MulNeg(q, x); }
    }
  }

  /** One modulo one is flagged, although its quotient fits every width. */
  lemma SremFlagsOneByOne(w: nat)
    requires w > 1
    ensures 1 < Pow2(w) && Signed(1, w) == 1
    ensures DivFlag(true, Wrap(TruncRem(1, 1), w), 1, 1, w) && Fits(true, TruncDiv(1, 1), w)
  {
    assert Pow2(w) == 2 * Pow2(w - 1) && Pow2(w - 1) == 2 * Pow2(w - 2);
    SremFlagExact(1, 1, w);
    ModSmall(0, Pow2(w));
  }
}

/** Fixed-width machine words as natural numbers, for any width.  Bitwise operators are
    defined from the top bit down, so that the sign bit of a result is one unfolding away. */
module Words {

  function Pow2(n: nat): (r: int)
    ensures r > 0
  {
    if n == 0 then 1 else 2 * Pow2(n - 1)
  }

  /** The residue of any integer at width w (two's complement for negative numbers). */
  function Wrap(v: int, w: nat): (r: nat)
    ensures r < Pow2(w)
  {
    v % Pow2(w)
  }

  /** The two's complement reading of a word. */
  function Signed(x: nat, w: nat): int
    requires w > 0
  {
    if x < Pow2(w - 1) then x else x - Pow2(w)
  }

  /** Division and remainder that round toward zero. */
  function TruncDiv(a: int, b: int): int
    requires b != 0
  {
    if a >= 0 then a / b else -((-a) / b)
  }

  function TruncRem(a: int, b: int): int
    requires b != 0
  {
    a - b * TruncDiv(a, b)
  }

  datatype BitOp = And | Or | Xor {
    function Apply(a: bool, b: bool): bool {
      match this
      case And => a && b
      case Or => a || b
      case Xor => a != b
    }
  }

  function Bitwise(op: BitOp, w: nat, a: nat, b: nat): (r: nat)
    requires a < Pow2(w) && b < Pow2(w)
    ensures r < Pow2(w)
    decreases w, a, b
  {
    if w == 0 then 0
    else
      var h := Pow2(w - 1);
      var a' := if a >= h then a - h else a;
      var b' := if b >= h then b - h else b;
      (if op.Apply(a >= h, b >= h) then h else 0) + Bitwise(op, w - 1, a', b')
  }

  lemma {:induction false} Pow2Add(m: nat, n: nat)
    ensures Pow2(m + n) == Pow2(m) * Pow2(n)
  {
    if m != 0 {
      Pow2Add(m - 1, n);
      assert Pow2(m) * Pow2(n) == 2 * (Pow2(m - 1) * Pow2(n));
    }
  }

  lemma {:induction false} Pow2Mono(m: nat, n: nat)
    requires m <= n
    ensures Pow2(m) <= Pow2(n)
  {
    if m < n { Pow2Mono(m, n - 1); }
  }

  /** A word's two readings determine each other. */
  lemma SignedWrap(v: int, w: nat)
    requires w > 0
    requires -Pow2(w - 1) <= v < Pow2(w - 1)
    ensures Signed(Wrap(v, w), w) == v
  {
    if v >= 0 {
      ModSmall(v, Pow2(w));
    } else {
      ModUnique(v, Pow2(w), -1, v + Pow2(w));
    }
  }

  lemma WrapSigned(x: nat, w: nat)
    requires w > 0 && x < Pow2(w)
    ensures Wrap(Signed(x, w), w) == x
    ensures -Pow2(w - 1) <= Signed(x, w) < Pow2(w - 1)
  {
    ModUnique(Signed(x, w), Pow2(w), if x < Pow2(w - 1) then 0 else -1, x);
  }

  lemma ModSmall(x: nat, n: nat)
    requires x < n
    ensures x % n == x
  {
  }

  /** The remainder is the only value in range that differs by a multiple. */
  lemma ModUnique(v: int, n: nat, q: int, r: nat)
    requires r < n && v == q * n + r
    ensures v % n == r
    ensures v / n == q
  {
    var q', r' := v / n, v % n;
    assert v == q' * n + r' && 0 <= r' < n;
    assert (q - q') * n == r' - r;
    if q > q' {
      MulGrows(q - q', n);
    } else if q < q' {
      MulGrows(q' - q, n);
      MulNeg(q' - q, n);
    }
  }

  lemma MulNeg(k: int, n: int)
    ensures (-k) * n == -(k * n) == k * (-n)
  {
  }

  lemma MulGrows(k: int, n: nat)
    requires k >= 1
    ensures k * n >= n
  {
    assert k * n == (k - 1) * n + n;
    MulNonNeg(k - 1, n);
  }

  lemma MulNonNeg(x: nat, y: nat)
    ensures x * y >= 0
  {
  }

  lemma MulMono(a: nat, b: nat, n: nat)
    requires a <= b
    ensures a * n <= b * n
  {
    assert b * n == a * n + (b - a) * n;
    MulNonNeg(b - a, n);
  }

  /** Congruent integers wrap to the same word. */
  lemma WrapCongruent(u: int, v: int, k: int, w: nat)
    requires u == v + k * Pow2(w)
    ensures Wrap(u, w) == Wrap(v, w)
  {
    var n := Pow2(w);
    assert v == (v / n) * n + v % n;
    assert u == (v / n + k) * n + v % n;
    ModUnique(u, n, v / n + k, v % n);
  }

  /** Wrapping within one modulus of the range is at most one addition or subtraction. */
  lemma WrapNear(v: int, w: nat)
    requires -Pow2(w) <= v < 2 * Pow2(w)
    ensures Wrap(v, w) == if v < 0 then v + Pow2(w) else if v < Pow2(w) then v else v - Pow2(w)
  {
    var q := if v < 0 then -1 else if v < Pow2(w) then 0 else 1;
    ModUnique(v, Pow2(w), q, v - q * Pow2(w));
  }

  lemma WrapDecompose(v: int, w: nat) returns (k: int)
    ensures v == k * Pow2(w) + Wrap(v, w)
  {
    k := v / Pow2(w);
  }

  lemma DivShrinks(x: nat, n: nat)
    requires n > 0
    ensures x / n <= x
  {
    assert x == (x / n) * n + x % n;
    MulNonNeg(x / n, n - 1);
  }
}

/** Unsigned 64-bit words as natural numbers: exclusive or, and products that wrap around. */
module Word64 {
  import opened Arith

  const WORD: nat := 0x1_0000_0000_0000_0000

  type u64 = x: nat | x < WORD

  function Xor(a: nat, b: nat): nat
    decreases a + b
  {
    if a == 0 && b == 0 then 0 else (a + b) % 2 + 2 * Xor(a / 2, b / 2)
  }

  function ShiftRight(x: nat, k: nat): nat {
    Quotient(x, Pow2(k))
  }

  function WrapMul(a: nat, b: nat): u64 {
    (a * b) % WORD
  }

  lemma {:induction false} XorBound(a: nat, b: nat, n: nat)
    requires a < Pow2(n) && b < Pow2(n)
    ensures Xor(a, b) < Pow2(n)
    decreases n
  {
    if n > 0 {
      XorBound(a / 2, b / 2, n - 1);
    }
  }

  lemma Pow2Square(n: nat, v: nat)
    requires Pow2(n) == v
    ensures Pow2(n + n) == v * v
  {
    Pow2Add(n, n);
  }

  // The powers of two that occur as shift distances and word sizes.
  lemma Pow2Of64()
    ensures Pow2(8) == 256 && Pow2(33) == 0x2_0000_0000 && Pow2(64) == WORD
  {
    assert Pow2(2) == 4;
    Pow2Square(2, 4);
    Pow2Square(4, 16);
    Pow2Square(8, 256);
    Pow2Square(16, 0x1_0000);
    Pow2Square(32, 0x1_0000_0000);
  }

  function Xor64(a: u64, b: u64): u64 {
    Pow2Of64();
    XorBound(a, b, 64);
    Xor(a, b)
  }

  lemma Digit(r: nat, h: nat)
    requires r < 2
    ensures (r + 2 * h) % 2 == r && (r + 2 * h) / 2 == h
  {
  }

  lemma {:induction false} XorStep(a: nat, b: nat)
    ensures Xor(a, b) % 2 == (a + b) % 2 && Xor(a, b) / 2 == Xor(a / 2, b / 2)
  {
    if a != 0 || b != 0 {
      Digit((a + b) % 2, Xor(a / 2, b / 2));
    }
  }

  lemma ParityCancels(x: nat, a: nat, b: nat)
    requires x % 2 == (a + b) % 2
    ensures (x + b) % 2 == a % 2
  {
    var i, j := x / 2, (a + b) / 2;
    assert x + b == a + 2 * (b + i - j);
  }

  lemma {:induction false} XorCancels(a: nat, b: nat)
    ensures Xor(Xor(a, b), b) == a
    decreases a + b
  {
    if a != 0 || b != 0 {
      hide Xor;
      XorCancels(a / 2, b / 2);
      XorStep(a, b);
      XorStep(Xor(a, b), b);
      ParityCancels(Xor(a, b), a, b);
    } else {
      assert Xor(0, 0) == 0;
    }
  }

  lemma XorInjective(a: nat, b: nat, c: nat)
    ensures Xor(a, c) == Xor(b, c) ==> a == b
  {
    XorCancels(a, c);
    XorCancels(b, c);
  }

  lemma {:induction false} XorCommutes(a: nat, b: nat)
    ensures Xor(a, b) == Xor(b, a)
    decreases a + b
  {
    if a != 0 || b != 0 {
      XorCommutes(a / 2, b / 2);
    }
  }

  lemma Xor64Commutes(a: u64, b: u64)
    ensures Xor64(a, b) == Xor64(b, a)
  {
    XorCommutes(a, b);
  }

  lemma Xor64Injective(a: u64, b: u64, c: u64)
    ensures Xor64(a, c) == Xor64(b, c) ==> a == b
    ensures Xor64(c, a) == Xor64(c, b) ==> a == b
  {
    XorInjective(a, b, c);
    XorCommutes(a, c);
    XorCommutes(b, c);
  }

  lemma {:induction false} XorZero(a: nat)
    ensures Xor(a, 0) == a
  {
    if a != 0 {
      XorZero(a / 2);
    }
  }

  lemma DivDiv(a: nat, p: nat)
    requires p > 0
    ensures a / (2 * p) == (a / 2) / p
  {
    var q := a / (2 * p);
    assert 2 * p * q <= a < 2 * p * q + 2 * p;
    assert q * p == p * q;
    DivUnique(a / 2, p, q);
  }

  lemma HalfFirst(a: nat, k: nat)
    requires k > 0
    ensures ShiftRight(a, k) == ShiftRight(a / 2, k - 1)
  {
    DivDiv(a, Pow2(k - 1));
  }

  // A right shift distributes over exclusive or.
  lemma {:induction false} XorShiftRight(a: nat, b: nat, k: nat)
    ensures ShiftRight(Xor(a, b), k) == Xor(ShiftRight(a, k), ShiftRight(b, k))
    decreases k
  {
    if k == 0 {
      assert Pow2(0) == 1;
    } else {
      hide Xor, ShiftRight, Pow2;
      XorShiftRight(a / 2, b / 2, k - 1);
      XorStep(a, b);
      HalfFirst(a, k);
      HalfFirst(b, k);
      HalfFirst(Xor(a, b), k);
    }
  }

  // Multiplication by a constant that has an inverse modulo 2^64 loses nothing.
  lemma WrapMulInjective(a: u64, b: u64, c: nat, inverse: nat)
    requires (c * inverse) % WORD == 1
    ensures WrapMul(a, c) == WrapMul(b, c) ==> a == b
  {
    WrapMulUndone(a, c, inverse);
    WrapMulUndone(b, c, inverse);
  }

  lemma WrapMulUndone(a: u64, c: nat, inverse: nat)
    requires (c * inverse) % WORD == 1
    ensures WrapMul(WrapMul(a, c), inverse) == a
  {
    var k, m := (a * c) / WORD, (c * inverse) / WORD;
    var r := WrapMul(a, c);
    assert r == a * c - k * WORD;
    assert c * inverse == m * WORD + 1;
    calc {
      r * inverse;
      (a * c - k * WORD) * inverse;
      a * c * inverse - k * WORD * inverse;
      a * (c * inverse) - k * WORD * inverse;
      a * (m * WORD + 1) - k * WORD * inverse;
      a * m * WORD + a - k * WORD * inverse;
      a + (a * m - k * inverse) * WORD;
    }
    ModPlus(a, a * m - k * inverse);
  }

  lemma ModPlus(a: u64, k: int)
    requires a + k * WORD >= 0
    ensures (a + k * WORD) % WORD == a
  {
    DivPlus(a, k, WORD);
  }

  // ---- Bytes, least significant first ----

  type byte = b: nat | b < 256

  function BytesOf(v: nat, n: nat): (s: seq<byte>)
    ensures |s| == n
  {
    if n == 0 then [] else [v % 256] + BytesOf(v / 256, n - 1)
  }

  lemma {:induction false} BytesInjective(v: nat, w: nat, n: nat)
    requires v < Pow2(8 * n) && w < Pow2(8 * n)
    ensures BytesOf(v, n) == BytesOf(w, n) ==> v == w
    decreases n
  {
    if n > 0 {
      Pow2Of64();
      Pow2Add(8, 8 * (n - 1));
      assert 8 + 8 * (n - 1) == 8 * n;
      BytesInjective(v / 256, w / 256, n - 1);
      assert BytesOf(v, n)[0] == v % 256 && BytesOf(v, n)[1..] == BytesOf(v / 256, n - 1);
      assert BytesOf(w, n)[0] == w % 256 && BytesOf(w, n)[1..] == BytesOf(w / 256, n - 1);
    }
  }
}

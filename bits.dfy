/**
 * C's bitwise operators on non-negative integers, defined bit by bit, and
 * the handful of laws the rest of the model needs: a mask of low ones is a
 * remainder, a mask of high ones rounds down, a left shift followed by `|`
 * of a smaller value is an addition, and `^` with a power of two adds it
 * modulo the next power of two.
 */
module Bits {

  /** An unsigned 8-bit value (`unsigned char`). */
  type byte = b: int | 0 <= b < 256

  /** 2 to the power w. */
  function Pow2(w: nat): (r: nat)
    ensures r >= 1
  {
    if w == 0 then 1 else 2 * Pow2(w - 1)
  }

  /** a & b. */
  function And(a: nat, b: nat): nat
    decreases a
  {
    if a == 0 || b == 0 then 0
    else 2 * And(a / 2, b / 2) + (if a % 2 == 1 && b % 2 == 1 then 1 else 0)
  }

  /** a | b. */
  function Or(a: nat, b: nat): nat
    decreases a + b
  {
    if a == 0 then b
    else if b == 0 then a
    else 2 * Or(a / 2, b / 2) + (if a % 2 == 1 || b % 2 == 1 then 1 else 0)
  }

  /** a ^ b. */
  function Xor(a: nat, b: nat): nat
    decreases a + b
  {
    if a == 0 then b
    else if b == 0 then a
    else 2 * Xor(a / 2, b / 2) + (a % 2 + b % 2) % 2
  }

  /** Quotient and remainder are unique. */
  lemma DivModUnique(x: int, d: int, q: int, r: int)
    requires d > 0 && 0 <= r < d && x == q * d + r
    ensures x / d == q && x % d == r
  {
    var q', r' := x / d, x % d;
    assert x == q' * d + r';
    MulSub(q, q', d);
    if q > q' {
      MulAtLeast(q - q', d);
    } else if q < q' {
      MulAtLeast(q' - q, d);
    }
  }

  lemma MulSub(a: int, b: int, d: int)
    ensures (a - b) * d == a * d - b * d
  {
  }

  lemma MulAtLeast(a: int, d: int)
    requires a >= 1 && d > 0
    ensures a * d >= d
  {
    assert a * d == (a - 1) * d + d;
  }

  /** Multiplying by the same natural keeps the order. */
  lemma MulMono(a: nat, b: nat, d: nat)
    requires a <= b
    ensures a * d <= b * d
  {
  }

  lemma Pow2Mono(w: nat, n: nat)
    requires w <= n
    ensures Pow2(w) <= Pow2(n)
  {
    if w < n {
      Pow2Mono(w, n - 1);
    }
  }

  /** Taking the lowest bit off and putting it back commutes with a remainder. */
  lemma HalfMod(x: nat, m: nat)
    requires m >= 1
    ensures 2 * ((x / 2) % m) + x % 2 == x % (2 * m)
  {
    var h := x / 2;
    assert h == (h / m) * m + h % m;
    assert x == (h / m) * (2 * m) + (2 * (h % m) + x % 2);
    DivModUnique(x, 2 * m, h / m, 2 * (h % m) + x % 2);
  }

  lemma Pow2Add(a: nat, b: nat)
    ensures Pow2(a + b) == Pow2(a) * Pow2(b)
  {
    if b > 0 {
      Pow2Add(a, b - 1);
      assert Pow2(a + b) == 2 * Pow2(a + b - 1);
    }
  }

  /** Masking with w low ones keeps the remainder modulo 2^w. */
  lemma {:induction false} AndLow(a: nat, w: nat)
    ensures And(a, Pow2(w) - 1) == a % Pow2(w)
  {
    if w == 0 {
      DivModUnique(a, 1, a, 0);
    } else if a == 0 {
      DivModUnique(0, Pow2(w), 0, 0);
    } else {
      var m := Pow2(w - 1);
      assert Pow2(w) == 2 * m;
      assert And(a / 2, m - 1) == (a / 2) % m by {
        AndLow(a / 2, w - 1);
      }
      AndStep(a, Pow2(w) - 1, m - 1, 1, m, Pow2(w));
    }
  }

  /** Masking an n-bit value with ones in bits w..n-1 clears its low w bits. */
  lemma {:induction false} AndHigh(a: nat, n: nat, w: nat)
    requires w <= n && a < Pow2(n)
    ensures Pow2(w) <= Pow2(n) && And(a, Pow2(n) - Pow2(w)) == a - a % Pow2(w)
    decreases n, 1
  {
    Pow2Mono(w, n);
    if w == 0 {
      AndHighNone(a, n);
    } else if a == 0 {
      DivModUnique(0, Pow2(w), 0, 0);
    } else if w == n {
      AndHighAll(a, n);
    } else {
      AndHighInner(a, n, w);
    }
  }

  /** AndHigh for a mask with ones both above and below it: recurse one bit down. */
  lemma {:induction false} AndHighInner(a: nat, n: nat, w: nat)
    requires 0 < w < n && 0 < a < Pow2(n)
    ensures Pow2(w) <= Pow2(n) && And(a, Pow2(n) - Pow2(w)) == a - a % Pow2(w)
    decreases n, 0
  {
    HighMaskHalf(n, w);
    AndHigh(a / 2, n - 1, w - 1);
    AndHighStep(a, Pow2(n), Pow2(w), Pow2(n - 1), Pow2(w - 1));
  }

  /** The inductive step of AndHigh, over p = 2^n, q = 2^w and their halves. */
  lemma AndHighStep(a: nat, p: nat, q: nat, hp: nat, hq: nat)
    requires 1 <= hq < hp && p == 2 * hp && q == 2 * hq && 0 < a < p
    requires And(a / 2, hp - hq) == a / 2 - (a / 2) % hq
    ensures And(a, p - q) == a - a % q
  {
    AndStep(a, p - q, hp - hq, 0, hq, q);
  }

  /** AndHigh with no low bits to clear. */
  lemma AndHighNone(a: nat, n: nat)
    requires a < Pow2(n)
    ensures And(a, Pow2(n) - Pow2(0)) == a - a % Pow2(0)
  {
    AndLow(a, n);
    DivModUnique(a, Pow2(n), 0, a);
    DivModUnique(a, 1, a, 0);
  }

  /** AndHigh with every bit of a below the mask. */
  lemma AndHighAll(a: nat, n: nat)
    requires a < Pow2(n)
    ensures And(a, Pow2(n) - Pow2(n)) == a - a % Pow2(n)
  {
    DivModUnique(a, Pow2(n), 0, a);
  }

  /** One step of AndLow and AndHigh. The mask is 2 * half + bit; if the
      half of a masked by half keeps what it keeps modulo m (bit = 1) or
      rounds down to a multiple of m (bit = 0), then a masked by the mask
      does the same modulo p = 2m. */
  lemma AndStep(a: nat, mask: nat, half: nat, bit: nat, m: nat, p: nat)
    requires a > 0 && mask > 0 && bit <= 1 && mask == 2 * half + bit && m >= 1 && p == 2 * m
    requires bit == 1 ==> And(a / 2, half) == (a / 2) % m
    requires bit == 0 ==> And(a / 2, half) == a / 2 - (a / 2) % m
    ensures bit == 1 ==> And(a, mask) == a % p
    ensures bit == 0 ==> And(a, mask) == a - a % p
  {
    assert mask / 2 == half && mask % 2 == bit;
    HalfMod(a, m);
  }

  /** The powers of two a mask of bits w..n-1 is made of, one step down. */
  lemma HighMaskHalf(n: nat, w: nat)
    requires 0 < w < n
    ensures Pow2(n) == 2 * Pow2(n - 1) && Pow2(w) == 2 * Pow2(w - 1)
    ensures Pow2(w - 1) < Pow2(n - 1) && Pow2(w) < Pow2(n)
  {
    Pow2Mono(w, n - 1);
  }

  /** Shifting x left by w and or-ing in c < 2^w adds c. */
  lemma {:induction false} OrShifted(x: nat, c: nat, w: nat)
    requires c < Pow2(w)
    ensures Or(x * Pow2(w), c) == x * Pow2(w) + c
  {
    if w > 0 && x > 0 && c > 0 {
      assert x * Pow2(w) == 2 * (x * Pow2(w - 1));
      OrShifted(x, c / 2, w - 1);
    }
  }

  /** Flipping bit w of a (w + 1)-bit value adds 2^w modulo 2^(w + 1). */
  lemma {:induction false} XorTop(a: nat, w: nat)
    requires a < Pow2(w + 1)
    ensures Xor(a, Pow2(w)) == (a + Pow2(w)) % Pow2(w + 1)
  {
    var p := Pow2(w);
    assert Pow2(w + 1) == 2 * p;
    if w == 0 {
      assert a == 0 || a == 1;
    } else if a == 0 {
      DivModUnique(p, 2 * p, 0, p);
    } else {
      XorTop(a / 2, w - 1);
      XorTopStep(a, p, Pow2(w - 1));
    }
  }

  /** The inductive step of XorTop, over p = 2^w and h = 2^(w-1): the top bit flips,
      the lowest bit passes through. */
  lemma XorTopStep(a: nat, p: nat, h: nat)
    requires h >= 1 && p == 2 * h && 0 < a < 2 * p
    requires Xor(a / 2, h) == (a / 2 + h) % p
    ensures Xor(a, p) == (a + p) % (2 * p)
  {
    XorHalve(a, p, h);
    AddHalve(a, p, h);
  }

  /** One unfolding of Xor against an even operand. */
  lemma XorHalve(a: nat, p: nat, h: nat)
    requires h >= 1 && p == 2 * h && a > 0
    ensures Xor(a, p) == 2 * Xor(a / 2, h) + a % 2
  {
    assert p / 2 == h && p % 2 == 0;
  }

  /** Adding an even p and reducing modulo 2p, seen one bit down. */
  lemma AddHalve(a: nat, p: nat, h: nat)
    requires h >= 1 && p == 2 * h
    ensures (a + p) % (2 * p) == 2 * ((a / 2 + h) % p) + a % 2
  {
    var x := a + p;
    assert x / 2 == a / 2 + h && x % 2 == a % 2;
    HalfMod(x, p);
  }

  /** Shifting x left by six bits and adding c < 64 commutes with taking it
      modulo a power-of-two multiple. */
  lemma ShiftInMod(x: nat, c: nat, m: nat)
    requires m >= 1 && c < 64
    ensures (x * 64 + c) % (64 * m) == (x % m) * 64 + c
  {
    var q, r := x / m, x % m;
    assert x == q * m + r;
    assert x * 64 + c == q * (64 * m) + (r * 64 + c);
    assert r * 64 + c < 64 * m by {
      assert r <= m - 1;
      assert r * 64 <= (m - 1) * 64;
    }
    DivModUnique(x * 64 + c, 64 * m, q, r * 64 + c);
  }

  /** The powers of two that the rest of the model names. */
  lemma Pow2Values()
    ensures Pow2(6) == 64 && Pow2(7) == 128 && Pow2(8) == 256
    ensures Pow2(11) == 0x800 && Pow2(16) == 0x1_0000 && Pow2(21) == 0x20_0000
    ensures Pow2(26) == 0x400_0000 && Pow2(31) == 0x8000_0000 && Pow2(32) == 0x1_0000_0000
  {
    assert Pow2(8) == 256;
    assert Pow2(11) == 0x800;
    assert Pow2(14) == 0x4000;
    assert Pow2(16) == 0x1_0000;
    assert Pow2(19) == 0x8_0000;
    assert Pow2(21) == 0x20_0000;
    assert Pow2(24) == 0x100_0000;
    assert Pow2(26) == 0x400_0000;
    assert Pow2(29) == 0x2000_0000;
    assert Pow2(31) == 0x8000_0000;
    assert Pow2(32) == 0x1_0000_0000;
  }
}

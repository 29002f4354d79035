/** Unsigned machine words and the bit arithmetic the driver uses on them. */
module Bits {

  /** Rust `u16`: one PWM intensity or the configuration register. */
  newtype u16 = x: int | 0 <= x < 0x1_0000

  /** `1 << n`. */
  function Pow2(n: nat): nat
  {
    if n == 0 then 1 else 2 * Pow2(n - 1)
  }

  /** Bit `i` of `v`, that is `(v >> i) & 1 == 1`. */
  function Bit(v: nat, i: nat): bool
    decreases i
  {
    if i == 0 then v % 2 == 1 else Bit(v / 2, i - 1)
  }

  /** The `n` low bits of `v`, most significant first (the order `(0..n).rev()` visits them). */
  function MsbFirst(v: nat, n: nat): (bits: seq<bool>)
    ensures |bits| == n
  {
    seq(n, i requires 0 <= i < n => Bit(v, n - 1 - i))
  }

  /** Reads a sequence of bits, most significant first, back as a number. */
  function ValueMsb(bits: seq<bool>): nat
  {
    if bits == [] then 0
    else 2 * ValueMsb(bits[..|bits| - 1]) + (if bits[|bits| - 1] then 1 else 0)
  }

  /** Shifting `v` out MSB-first over `n` bits loses nothing when `v` fits in `n` bits. */
  lemma {:induction false} ValueOfMsbFirst(v: nat, n: nat)
    requires v < Pow2(n)
    ensures ValueMsb(MsbFirst(v, n)) == v
  {
    if n > 0 {
      var bits := MsbFirst(v, n);
      assert bits[..n - 1] == MsbFirst(v / 2, n - 1) by {
        forall i | 0 <= i < n - 1
          ensures bits[i] == MsbFirst(v / 2, n - 1)[i]
        {
          assert Bit(v, n - 1 - i) == Bit(v / 2, n - 2 - i);
        }
      }
      ValueOfMsbFirst(v / 2, n - 1);
      assert bits[n - 1] == Bit(v, 0) == (v % 2 == 1);
    }
  }

  /** Euclidean division is determined by quotient and remainder. */
  lemma DivModOf(a: nat, k: nat, q: nat, r: nat)
    requires 0 < k && a == k * q + r && r < k
    ensures a / k == q && a % k == r
  {
    var q0 := a / k;
    if q0 < q {
      MulMono(k, q0 + 1, q);
    } else if q < q0 {
      MulMono(k, q + 1, q0);
    }
  }

  lemma MulSucc(k: nat, x: nat)
    ensures k * (x + 1) == k * x + k && x * k + k == k * (x + 1)
  {
  }

  /** `m * x` fits in `a` exactly when `x` is at most `a / m`. */
  lemma MulBelowDiv(a: nat, m: nat, x: nat)
    requires 0 < m
    ensures m * x <= a <==> x <= a / m
  {
    var q, r := a / m, a % m;
    assert a == m * q + r && r < m;
    if x <= q {
      MulMono(m, x, q);
    } else {
      MulMono(m, q + 1, x);
      MulSucc(m, q);
    }
  }

  lemma MulMono(k: nat, x: nat, y: nat)
    requires x <= y
    ensures k * x <= k * y
  {
    var d := y - x;
    assert k * y == k * x + k * d;
  }
}

/** Go's unsigned integer operations used by the length encoders, written out
    on mathematical integers: a `byte(...)` conversion keeps the low 8 bits,
    `>>` divides by a power of two, `| 0x80` sets bit 7 and `& 0x7f` keeps the
    low 7 bits. */
module GoBits {

  type byte = x: int | 0 <= x < 0x100

  /** Go's `int` is 64 bits wide on the platforms the library targets. */
  const MaxInt: int := 0x7fff_ffff_ffff_ffff
  type GoInt = x: int | -MaxInt - 1 <= x <= MaxInt

  function Pow2(k: nat): (p: nat)
    ensures p >= 1
  {
    if k == 0 then 1 else 2 * Pow2(k - 1)
  }

  /** `x >> k` on a Go `uint`; shifting never makes a number larger */
  function Shr(x: nat, k: nat): (r: nat)
    ensures r <= x
  {
    DivBounds(x, Pow2(k));
    x / Pow2(k)
  }

  /** The quotient of a natural number is the largest multiple of `d` below it. */
  lemma DivBounds(x: nat, d: nat)
    requires d > 0
    ensures 0 <= x / d <= x && d * (x / d) <= x < d * (x / d + 1)
  {
    var q, r := x / d, x % d;
    assert x == d * q + r && 0 <= r < d;
    assert q * 1 <= q * d by { MulMonotone(q, 1, d); }
  }

  /** `x >> k` is the whole number of times `2^k` fits in `x`. */
  lemma ShrIsFloor(x: nat, k: nat)
    ensures Pow2(k) * Shr(x, k) <= x < Pow2(k) * (Shr(x, k) + 1)
  {
    DivBounds(x, Pow2(k));
  }

  /** `x | 0x80`: bit 7 is set already, or setting it adds 0x80 */
  function OrHigh(x: nat): (r: nat)
    ensures (r / 0x80) % 2 == 1
  {
    if (x / 0x80) % 2 == 1 then x else x + 0x80
  }

  /** `x | 0x80` keeps every bit of `x` other than bit 7. */
  lemma OrHighKeepsOtherBits(x: nat)
    ensures OrHigh(x) % 0x80 == x % 0x80 && OrHigh(x) / 0x100 == x / 0x100
  {
    var q, r := x / 0x100, x % 0x100;
    var h, l := r / 0x80, r % 0x80;
    assert x == 0x100 * q + 0x80 * h + l;
    DivModUnique(x, 0x80, 2 * q + h, l);
    DivModUnique(2 * q + h, 2, q, h);
    if h == 0 {
      DivModUnique(x + 0x80, 0x100, q, 0x80 + l);
      DivModUnique(x + 0x80, 0x80, 2 * q + 1, l);
    }
  }

  /** `x & 0x7f` */
  function Low7(x: nat): (r: nat)
    ensures r < 0x80 && r <= x && (x - r) % 0x80 == 0
  {
    x % 0x80
  }

  /** `byte(x)`: Go's conversion keeps the low 8 bits, dropping a multiple of 256 */
  function ToByte(x: nat): (r: byte)
    ensures r <= x && (x - r) % 0x100 == 0
  {
    x % 0x100
  }

  /** `byte(x | 0x80)` is the low 7 bits of `x` with the continuation bit on. */
  lemma ToByteOrHigh(x: nat)
    ensures ToByte(OrHigh(x)) == x % 0x80 + 0x80
  {
    assert x % 0x100 == ((x / 0x80) % 2) * 0x80 + x % 0x80;
  }

  /** `byte(x & 0x7f)` is the low 7 bits of `x`. */
  lemma ToByteLow7(x: nat)
    ensures ToByte(Low7(x)) == x % 0x80
  {
  }

  /** Shifting by 7 bits `i` times divides by 128 to the power `i`. */
  lemma {:induction false} Pow2Sevens(i: nat)
    ensures Pow2(7 * i) == Pow128(i)
  {
    if i > 0 {
      Pow2Sevens(i - 1);
      var a := 7 * (i - 1);
      assert 7 * i == a + 7;
      assert Pow2(a + 7) == 128 * Pow2(a) by {
        assert Pow2(a + 7) == 2 * Pow2(a + 6);
        assert Pow2(a + 6) == 2 * Pow2(a + 5);
        assert Pow2(a + 5) == 2 * Pow2(a + 4);
        assert Pow2(a + 4) == 2 * Pow2(a + 3);
        assert Pow2(a + 3) == 2 * Pow2(a + 2);
        assert Pow2(a + 2) == 2 * Pow2(a + 1);
        assert Pow2(a + 1) == 2 * Pow2(a);
      }
    }
  }

  /** 128 to the power `k`, the `pow(128, i)` of the reverse-loop encoder */
  function Pow128(k: nat): (p: nat)
    ensures p >= 1
  {
    if k == 0 then 1 else 128 * Pow128(k - 1)
  }

  /** Euclid's division is unique. */
  lemma DivModUnique(x: int, d: int, q: int, r: int)
    requires d > 0 && 0 <= r < d && x == d * q + r
    ensures x / d == q && x % d == r
  {
    var q', r' := x / d, x % d;
    assert d * q' + r' == d * q + r;
    if q' > q {
      assert d * q' >= d * (q + 1) by { MulMonotone(d, q + 1, q'); }
      assert false;
    } else if q' < q {
      assert d * q >= d * (q' + 1) by { MulMonotone(d, q' + 1, q); }
      assert false;
    }
  }

  lemma MulMonotone(d: nat, a: int, b: int)
    requires a <= b
    ensures d * a <= d * b
  {
    assert d * b - d * a == d * (b - a);
  }

  /** Dividing by 128 and then by `p` is dividing by `128 * p`. */
  lemma DivDiv128(n: nat, p: nat)
    requires p > 0
    ensures (n / 128) / p == n / (128 * p)
  {
    var q, r := n / 128, n % 128;
    var q2, r2 := q / p, q % p;
    assert n == (128 * p) * q2 + (128 * r2 + r) by {
      assert n == 128 * q + r;
      assert q == p * q2 + r2;
    }
    DivModUnique(n, 128 * p, q2, 128 * r2 + r);
  }

  /** The low 7 bits, then the next `p`-ary digit above them, make up `n % (128 * p)`. */
  lemma ModStep128(n: nat, p: nat)
    requires p > 0
    ensures ((n / 128) % p) * 128 + n % 128 == n % (128 * p)
  {
    var q, r := n / 128, n % 128;
    var q2, r2 := q / p, q % p;
    assert n == (128 * p) * q2 + (128 * r2 + r) by {
      assert n == 128 * q + r;
      assert q == p * q2 + r2;
    }
    DivModUnique(n, 128 * p, q2, 128 * r2 + r);
  }
}

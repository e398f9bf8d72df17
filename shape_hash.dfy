/** The hash arithmetic of the shape table: the primary and secondary hash
    codes of a property id and the double-hashing probe sequence over a
    power-of-two table.  Hash numbers are unsigned 32-bit integers, so the
    shifts and the subtraction of a probe step wrap modulo 2^32, written
    out explicitly. */
module ShapeHash {

  /** Width of a hash number in bits. */
  const HashBits: nat := 32

  const HashLimit: nat := 0x1_0000_0000

  type HashNumber = x: nat | x < 0x1_0000_0000

  function Pow2(n: nat): (p: nat)
    ensures p >= 1
  {
    if n == 0 then 1 else 2 * Pow2(n - 1)
  }

  // ---------------------------------------------------------------------
  // Arithmetic facts.

  lemma {:induction false} Pow2Add(a: nat, b: nat)
    ensures Pow2(a + b) == Pow2(a) * Pow2(b)
    decreases a
  {
    if a > 0 {
      Pow2Add(a - 1, b);
      assert Pow2(a + b) == 2 * Pow2(a - 1 + b);
      assert 2 * (Pow2(a - 1) * Pow2(b)) == (2 * Pow2(a - 1)) * Pow2(b);
    }
  }

  lemma Pow2HashBits()
    ensures Pow2(HashBits) == HashLimit
  {
    assert Pow2(8) == 0x100;
    Pow2Add(8, 8);
    Pow2Add(16, 16);
  }

  lemma Pow2Mono(a: nat, b: nat)
    requires a <= b
    ensures Pow2(a) <= Pow2(b)
  {
    Pow2Add(a, b - a);
    assert Pow2(b) == Pow2(a) * Pow2(b - a);
  }

  /** A larger power of two has the larger exponent. */
  lemma Pow2Below(a: nat, b: nat)
    requires Pow2(b) < Pow2(a)
    ensures b < a
  {
    if a <= b {
      Pow2Mono(a, b);
    }
  }

  /** Powers of two above the first are even. */
  lemma Pow2Even(n: nat)
    requires n >= 1
    ensures Pow2(n) % 2 == 0
  {
    assert Pow2(n) == 2 * Pow2(n - 1);
  }

  lemma MulAtLeast(d: int, m: int)
    requires d >= 1 && m > 0
    ensures d * m >= m
  {
  }

  /** Euclidean division has one quotient and one remainder. */
  lemma ModUnique(y: int, m: int, q: int, r: int)
    requires m > 0 && 0 <= r < m && y == q * m + r
    ensures y % m == r
  {
    var q0, r0 := y / m, y % m;
    assert (q0 - q) * m == r - r0;
    if q0 > q {
      MulAtLeast(q0 - q, m);
    } else if q0 < q {
      MulAtLeast(q - q0, m);
    }
  }

  lemma ModShift(y: int, c: int, m: int)
    requires m > 0
    ensures (y + c * m) % m == y % m
  {
    assert y + c * m == (y / m + c) * m + y % m;
    ModUnique(y + c * m, m, y / m + c, y % m);
  }

  lemma ModSub(a: int, c: int, m: int)
    requires m > 0
    ensures (a % m - c) % m == (a - c) % m
  {
    assert a % m - c == (a - c) + (-(a / m)) * m;
    ModShift(a - c, -(a / m), m);
  }

  lemma ModMod(y: int, m: int, n: int)
    requires m > 0 && n > 0
    ensures (y % (m * n)) % m == y % m
  {
    var q := y / (m * n);
    assert q * (m * n) == (q * n) * m;
    assert y % (m * n) == y + (-(q * n)) * m;
    ModShift(y, -(q * n), m);
  }

  // ---------------------------------------------------------------------
  // Hash codes and the probe sequence.

  /** `x | 1`: the number made odd by setting its lowest bit. */
  function SetLowBit(x: nat): (r: nat)
    ensures r % 2 == 1 && (r == x || r == x + 1)
  {
    if x % 2 == 0 then x + 1 else x
  }

  /** `x >> n`: the bits of `x` above the lowest `n`. */
  function ShiftRight(x: nat, n: nat): (r: nat)
  {
    if n == 0 then x else ShiftRight(x / 2, n - 1)
  }

  lemma {:induction false} ShiftRightBound(x: nat, m: nat, n: nat)
    requires n <= m && x < Pow2(m)
    ensures ShiftRight(x, n) < Pow2(m - n)
    decreases n
  {
    if n > 0 {
      assert Pow2(m) == 2 * Pow2(m - 1);
      ShiftRightBound(x / 2, m - 1, n - 1);
    }
  }

  /** `x << n` on a 32-bit number: each doubling drops the bit shifted past
      the 32nd. */
  function ShiftLeft(x: HashNumber, n: nat): (r: HashNumber)
    decreases n
  {
    if n == 0 then x else ShiftLeft((2 * x) % HashLimit, n - 1)
  }

  /** `x & (2^n - 1)`: the lowest `n` bits of a non-negative `x`. */
  function Mask(x: nat, n: nat): (r: nat)
    ensures r < Pow2(n)
  {
    if n == 0 then 0 else 2 * Mask(x / 2, n - 1) + x % 2
  }

  /** Masking the low `n` bits is the remainder modulo `2^n`. */
  lemma {:induction false} MaskMod(x: nat, n: nat)
    ensures Mask(x, n) == x % Pow2(n)
    decreases n
  {
    if n == 0 {
      ModUnique(x, 1, x, 0);
    } else {
      var p := Pow2(n - 1);
      MaskMod(x / 2, n - 1);
      var q, r := (x / 2) / p, (x / 2) % p;
      assert x / 2 == q * p + r;
      assert x == (2 * p) * q + (2 * r + x % 2);
      ModUnique(x, 2 * p, q, 2 * r + x % 2);
    }
  }

  /** The primary hash, `hash0 >> shift`: the top `HashBits - shift` bits
      of the hash number, which index a table of that many address bits. */
  function Hash1(hash0: HashNumber, shift: nat): (r: HashNumber)
    requires shift <= HashBits
    ensures r < Pow2(HashBits - shift)
  {
    Pow2HashBits();
    ShiftRightBound(hash0, HashBits, shift);
    Pow2Mono(HashBits - shift, HashBits);
    ShiftRight(hash0, shift)
  }

  /** The secondary hash, `((hash0 << log2) >> shift) | 1`.  It is the probe
      step of double hashing, and it is odd so that it is relatively prime
      to the table size. */
  function Hash2(hash0: HashNumber, log2: nat, shift: nat): (r: HashNumber)
    requires 1 <= log2 && log2 + shift == HashBits
    ensures r % 2 == 1 && r < Pow2(log2)
  {
    Pow2HashBits();
    ShiftRightBound(ShiftLeft(hash0, log2), HashBits, shift);
    Pow2Even(log2);
    Pow2Mono(log2, HashBits);
    SetLowBit(ShiftRight(ShiftLeft(hash0, log2), shift))
  }

  /** One probe step, `hash1 -= hash2; hash1 &= sizeMask`: a 32-bit
      subtraction followed by a mask of `log2` low bits. */
  function NextProbe(hash1: HashNumber, hash2: HashNumber, log2: nat): (r: HashNumber)
    requires log2 <= HashBits
    ensures r < Pow2(log2)
  {
    Pow2Mono(log2, HashBits);
    Pow2HashBits();
    Mask((hash1 - hash2) % HashLimit, log2)
  }

  /** The table index after `k` probe steps from `hash1`. */
  function Probe(hash1: HashNumber, hash2: HashNumber, log2: nat, k: nat): (r: HashNumber)
    requires log2 <= HashBits && hash1 < Pow2(log2)
    ensures r < Pow2(log2)
  {
    if k == 0 then hash1 else NextProbe(Probe(hash1, hash2, log2, k - 1), hash2, log2)
  }

  /** One wrapped step is exact subtraction modulo the table size. */
  lemma NextProbeMod(p: HashNumber, hash2: HashNumber, log2: nat)
    requires log2 <= HashBits
    ensures NextProbe(p, hash2, log2) == (p - hash2) % Pow2(log2)
  {
    var m, n, y := Pow2(log2), Pow2(HashBits - log2), p - hash2;
    assert m * n == HashLimit by {
      Pow2Add(log2, HashBits - log2);
      Pow2HashBits();
    }
    MaskMod(y % HashLimit, log2);
    ModMod(y, m, n);
  }

  /** The wrapped 32-bit steps agree with exact arithmetic modulo the
      table size: step `k` is `hash1 - k * hash2` modulo `2^log2`. */
  lemma {:induction false} ProbeClosedForm(hash1: HashNumber, hash2: HashNumber, log2: nat, k: nat)
    requires log2 <= HashBits && hash1 < Pow2(log2)
    ensures Probe(hash1, hash2, log2, k) == (hash1 - k * hash2) % Pow2(log2)
  {
    var m := Pow2(log2);
    if k == 0 {
      ModUnique(hash1, m, 0, hash1);
    } else {
      ProbeClosedForm(hash1, hash2, log2, k - 1);
      var a, b := hash1 - (k - 1) * hash2, hash1 - k * hash2;
      assert a - hash2 == b by {
        assert (k - 1) * hash2 == k * hash2 - hash2;
      }
      var p := Probe(hash1, hash2, log2, k - 1);
      assert p == a % m;
      assert Probe(hash1, hash2, log2, k) == NextProbe(p, hash2, log2);
      NextProbeMod(p, hash2, log2);
      ModSub(a, hash2, m);
      assert (p - hash2) % m == b % m;
    }
  }

  /** The induction step of `OddMultiple` when the quotient is odd: adding
      `m` to the multiplier adds an odd multiple of `m` to the product. */
  lemma OddMultipleStep(m: nat, h: nat, t: int, k0: nat, q0: int)
    requires h % 2 == 1 && q0 % 2 == 1 && k0 * h == t + q0 * m
    ensures (k0 + m) * h == t + ((q0 + 1) / 2 + h / 2) * (2 * m)
  {
    var w, c := h / 2, (q0 + 1) / 2;
    assert h == 2 * w + 1 && q0 + 1 == 2 * c;
    assert (k0 + m) * h == k0 * h + m * h;
    assert m * h == m * (2 * w) + m;
    assert (c + w) * (2 * m) == c * (2 * m) + w * (2 * m);
    assert c * (2 * m) == (q0 + 1) * m == q0 * m + m;
    assert w * (2 * m) == m * (2 * w);
  }

  /** An odd number times some `k` below `2^n` hits every residue class
      modulo `2^n`. */
  lemma {:induction false} OddMultiple(n: nat, h: nat, t: int) returns (k: nat, q: int)
    requires h % 2 == 1
    ensures k < Pow2(n) && k * h == t + q * Pow2(n)
    decreases n
  {
    if n == 0 {
      k, q := 0, -t;
    } else {
      var k0, q0 := OddMultiple(n - 1, h, t);
      var m := Pow2(n - 1);
      assert Pow2(n) == 2 * m;
      if q0 % 2 == 0 {
        k, q := k0, q0 / 2;
        assert q0 * m == (q0 / 2) * (2 * m);
      } else {
        OddMultipleStep(m, h, t, k0, q0);
        k, q := k0 + m, (q0 + 1) / 2 + h / 2;
      }
    }
  }

  /** With an odd step, the first `2^log2` probes reach every index of
      the table. */
  lemma ProbeReaches(hash1: HashNumber, hash2: HashNumber, log2: nat, f: nat)
    requires log2 <= HashBits && hash1 < Pow2(log2) && hash2 % 2 == 1 && f < Pow2(log2)
    ensures exists k :: 0 <= k < Pow2(log2) && Probe(hash1, hash2, log2, k) == f
  {
    var m := Pow2(log2);
    var k, q := OddMultiple(log2, hash2, hash1 - f);
    ProbeClosedForm(hash1, hash2, log2, k);
    assert (-q) * m == -(q * m);
    assert hash1 - k * hash2 == (-q) * m + f;
    ModUnique(hash1 - k * hash2, m, -q, f);
    assert Probe(hash1, hash2, log2, k) == f;
  }
}

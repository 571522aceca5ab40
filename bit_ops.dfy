/** Unsigned 32-bit integers and the bitwise AND used to mask offsets, modelled
    on natural numbers so that "AND with 2^k - 1" can be related to "% 2^k". */
module BitOps {

  /** The C++ `uint32` of the decoder. */
  type Uint32 = x: int | 0 <= x < 0x1_0000_0000

  /** 2 raised to the power k. */
  function Pow2(k: nat): (r: nat)
    ensures r >= 1
  {
    if k == 0 then 1 else 2 * Pow2(k - 1)
  }

  /** Bitwise AND of two naturals, one bit (least significant first) at a time.
      Clearing bits never makes a number larger than either operand. */
  function BitAnd(a: nat, b: nat): (r: nat)
    ensures r <= a && r <= b
  {
    if a == 0 || b == 0 then 0
    else 2 * BitAnd(a / 2, b / 2) + (if a % 2 == 1 && b % 2 == 1 then 1 else 0)
  }

  /** Multiplying by a natural keeps order. Dafny often finds this alone; the
      induction is kept so that the proof does not depend on the solver seed. */
  lemma {:induction false} MulMonotone(d: nat, a: nat, b: nat)
    requires a <= b
    ensures d * a <= d * b
    decreases b - a
  {
    if a < b {
      MulMonotone(d, a, b - 1);
      assert d * b == d * (b - 1) + d;
    }
  }

  /** Between two distinct multiples of d there is a gap of at least d. */
  lemma MulGap(d: nat, a: nat, b: nat)
    ensures a < b ==> d * a + d <= d * b
  {
    if a < b {
      MulMonotone(d, a + 1, b);
      assert d * (a + 1) == d * a + d;
    }
  }

  /** Division with remainder is unique: the remainder of x by d is s. */
  lemma ModUnique(x: nat, d: nat, t: nat, s: nat)
    requires d >= 1 && x == d * t + s && s < d
    ensures x % d == s
  {
    var t', s' := x / d, x % d;
    MulGap(d, t', t);
    MulGap(d, t, t');
  }

  /** The remainder by 2m is built from the remainder of o/2 by m and the low bit of o. */
  lemma ModDouble(o: nat, m: nat)
    requires m >= 1
    ensures o % (2 * m) == 2 * ((o / 2) % m) + o % 2
  {
    var q, r := o / 2, o % 2;
    var t, s := q / m, q % m;
    assert q == m * t + s;
    assert o == (2 * m) * t + (2 * s + r);
    ModUnique(o, 2 * m, t, 2 * s + r);
  }

  /** 2^k is twice 2^(k-1), and 2^k - 1 is odd with 2^(k-1) - 1 as its upper bits. */
  lemma Pow2Halves(k: nat)
    requires k >= 1
    ensures Pow2(k) == 2 * Pow2(k - 1)
    ensures (Pow2(k) - 1) / 2 == Pow2(k - 1) - 1 && (Pow2(k) - 1) % 2 == 1
  {
  }

  /** One step of BitAnd against an odd mask: the low bit of `a` is kept. */
  lemma BitAndOddStep(a: nat, b: nat)
    requires a > 0 && b % 2 == 1
    ensures BitAnd(a, b) == 2 * BitAnd(a / 2, b / 2) + a % 2
  {
  }

  /** A mask with the k low bits set keeps exactly the remainder by 2^k. */
  lemma {:induction false} LowMaskIsModulo(o: nat, k: nat)
    ensures BitAnd(o, Pow2(k) - 1) == o % Pow2(k)
  {
    if k == 0 {
      assert Pow2(k) == 1;
    } else if o == 0 {
      ModUnique(0, Pow2(k), 0, 0);
    } else {
      Pow2Halves(k);
      BitAndOddStep(o, Pow2(k) - 1);
      LowMaskIsModulo(o / 2, k - 1);
      ModDouble(o, Pow2(k - 1));
    }
  }
}

/** The 32- and 64-bit words of the source, as bounded integers. */
module MachineWords {

  const TWO31 := 0x8000_0000
  const TWO32 := 0x1_0000_0000
  const TWO63 := 0x8000_0000_0000_0000
  const TWO64 := 0x1_0000_0000_0000_0000

  type int32 = x: int | -TWO31 <= x < TWO31
  type int64 = x: int | -TWO63 <= x < TWO63
  type uint64 = x: int | 0 <= x < TWO64

  /** `static_cast` of a signed value to the unsigned type with `modulus` values. */
  function ToUnsigned(v: int, modulus: nat): int {
    if v < 0 then v + modulus else v
  }

  /** `static_cast` of an unsigned value back to the signed type. */
  function ToSigned(u: int, half: nat): int {
    if u < half then u else u - 2 * half
  }

  /** Exclusive-or with the top bit `half` of a word with `2 * half` values. */
  function FlipTop(u: int, half: nat): int {
    if u < half then u + half else u - half
  }

  /** How a signed value is stored: cast, then top bit flipped, so that stored words sort
      as the values do. */
  function Biased(v: int, half: nat): int {
    FlipTop(ToUnsigned(v, 2 * half), half)
  }

  /** How a stored word is read back. */
  function Unbiased(u: int, half: nat): int {
    ToSigned(FlipTop(u, half), half)
  }

  lemma BiasRoundTrip(v: int, half: nat)
    ensures 0 - half <= v < half ==> 0 <= Biased(v, half) < 2 * half && Unbiased(Biased(v, half), half) == v
  {
  }

  lemma UnbiasRoundTrip(u: int, half: nat)
    ensures 0 <= u < 2 * half ==> 0 - half <= Unbiased(u, half) < half && Biased(Unbiased(u, half), half) == u
  {
  }

  lemma BiasMonotone(v: int, w: int, half: nat)
    ensures 0 - half <= v < half && 0 - half <= w < half ==> (Biased(v, half) < Biased(w, half) <==> v < w)
  {
  }

  // ---------- exclusive-or ----------

  /** The source's `^`, bit by bit. */
  function Xor(a: nat, b: nat): nat {
    if a == 0 && b == 0 then 0 else (a % 2 + b % 2) % 2 + 2 * Xor(a / 2, b / 2)
  }

  function Pow2(n: nat): (p: nat)
    ensures p > 0
  {
    if n == 0 then 1 else 2 * Pow2(n - 1)
  }

  lemma {:induction false} XorTop(u: nat, n: nat)
    requires u < 2 * Pow2(n)
    ensures Xor(u, Pow2(n)) == FlipTop(u, Pow2(n))
  {
    if n == 0 {
      assert Xor(0, 0) == 0 && Xor(0, 1) == 1 && Xor(1, 1) == 0;
    } else {
      XorTop(u / 2, n - 1);
      XorTwice(u, Pow2(n - 1));
      hide Xor;
    }
  }

  lemma XorTwice(u: nat, p: nat)
    requires p > 0
    ensures Xor(u, 2 * p) == u % 2 + 2 * Xor(u / 2, p)
  {
    assert (2 * p) % 2 == 0 && 2 * p / 2 == p;
  }

  lemma TopBits()
    ensures Pow2(31) == TWO31 && Pow2(63) == TWO63
  {
    assert Pow2(7) == 0x80;
    EightBits(7);
    EightBits(15);
    EightBits(23);
    EightBits(31);
    EightBits(39);
    EightBits(47);
    EightBits(55);
  }

  lemma EightBits(n: nat)
    ensures Pow2(n + 8) == 0x100 * Pow2(n)
  {
    assert Pow2(n + 4) == 0x10 * Pow2(n) by {
      assert Pow2(n + 2) == 4 * Pow2(n);
    }
    assert Pow2(n + 6) == 4 * Pow2(n + 4);
  }

  /** `FlipTop` is what `^ 0x80000000U` does to a 32-bit word and `^ 0x8000000000000000ULL` to
      a 64-bit one. */
  lemma FlipTopIsXor(u: nat)
    ensures u < TWO32 ==> FlipTop(u, TWO31) == Xor(u, TWO31)
    ensures u < TWO64 ==> FlipTop(u, TWO63) == Xor(u, TWO63)
  {
    TopBits();
    hide Pow2, FlipTop, Xor;
    if u < TWO32 { XorTop(u, 31); }
    if u < TWO64 { XorTop(u, 63); }
  }
}

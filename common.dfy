/** Small shared vocabulary of the model: an optional value and the C integer conversions it needs. */
module Common {

  /** A value that may be absent (a NULL pointer, a failed lookup). */
  datatype Option<+T> = None | Some(value: T)

  /** A `uint8_t`. */
  newtype Byte = x: int | 0 <= x < 256

  const TwoTo31: int := 0x8000_0000
  const TwoTo32: int := 0x1_0000_0000

  /** The C conversion of an unsigned 32-bit value to a signed `int` (two's complement). */
  function Int32Of(u: nat): (r: int)
    requires u < TwoTo32
    ensures -TwoTo31 <= r < TwoTo31
    ensures r % TwoTo32 == u
    ensures u < TwoTo31 ==> r == u
  {
    if u < TwoTo31 then u else u - TwoTo32
  }

  /** Unsigned 32-bit wrap-around of an integer, as `uint32_t` arithmetic does. */
  function U32(x: int): (r: nat)
    ensures r < TwoTo32
    ensures (r - x) % TwoTo32 == 0
    ensures 0 <= x < TwoTo32 ==> r == x
  {
    x % TwoTo32
  }

  /** 2 to the power `k`. */
  function Pow2(k: nat): (r: nat)
    ensures r >= 1
  {
    if k == 0 then 1 else 2 * Pow2(k - 1)
  }

  /** `q >> k` on a non-negative number. */
  function Shr(q: nat, k: nat): nat
  {
    var d := Pow2(k);
    DivNonNegative(q, d);
    q / d
  }

  lemma DivNonNegative(q: nat, d: nat)
    requires d > 0
    ensures q / d >= 0
  {
  }

  lemma {:induction false} Pow2Add(a: nat, b: nat)
    ensures Pow2(a + b) == Pow2(a) * Pow2(b)
  {
    if a > 0 {
      Pow2Add(a - 1, b);
    }
  }

  lemma MulLeq(a: nat, b: nat, c: nat)
    requires a <= b
    ensures a * c <= b * c
  {
  }

  lemma MulAdd(a: nat, b: nat, c: nat)
    ensures (a + b) * c == a * c + b * c
  {
  }

  /** Euclidean division is unique: a quotient and remainder in range are the ones `/` and `%` give. */
  lemma DivUnique(a: int, d: int, q: int, r: int)
    requires d > 0 && 0 <= r < d && a == d * q + r
    ensures a / d == q && a % d == r
  {
    var q0, r0 := a / d, a % d;
    assert d * (q0 - q) == r - r0;
    if q0 > q {
      MulLeq(1, q0 - q, d);
    } else if q0 < q {
      MulLeq(1, q - q0, d);
    }
  }

  /** Dividing by `b * c` is dividing by `b` and then by `c`; the remainders combine likewise. */
  lemma DivMod(a: nat, b: nat, c: nat)
    requires b > 0 && c > 0
    ensures a / (b * c) == (a / b) / c
    ensures a % (b * c) == a % b + b * ((a / b) % c)
  {
    var q, r := a / b, a % b;
    var q2, r2 := q / c, q % c;
    assert a == b * (c * q2 + r2) + r;
    assert a == (b * c) * q2 + (b * r2 + r);
    MulLeq(r2, c - 1, b);
    DivUnique(a, b * c, q2, b * r2 + r);
  }
}

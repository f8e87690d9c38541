/** Fixed-width integers, nibble packing and bit tests shared by the firmware model.
    All widths are unbounded Dafny integers restricted to their C range; where the
    C code wraps, the model reduces modulo the width explicitly. */
module Bytes {

  type U8 = x: int | 0 <= x < 0x100
  type U16 = x: int | 0 <= x < 0x1_0000
  type U32 = x: int | 0 <= x < 0x1_0000_0000
  type Nibble = x: int | 0 <= x < 0x10

  /** The pixel stored in the low four bits (even x in the backbuffer). */
  function Lo(b: U8): Nibble { b % 16 }

  /** The pixel stored in the high four bits (odd x in the backbuffer). */
  function Hi(b: U8): Nibble { b / 16 }

  /** The byte `lo | (hi << 4)`. */
  function Pack(lo: Nibble, hi: Nibble): (b: U8)
    ensures Lo(b) == lo && Hi(b) == hi
  {
    lo + 16 * hi
  }

  lemma PackOfNibbles(b: U8)
    ensures Pack(Lo(b), Hi(b)) == b
  {
  }

  /** Two bytes are equal exactly when both of their nibbles are. */
  lemma NibblesDetermineByte(a: U8, b: U8)
    requires Lo(a) == Lo(b) && Hi(a) == Hi(b)
    ensures a == b
  {
    PackOfNibbles(a);
    PackOfNibbles(b);
  }

  lemma MulLe(a: int, b: int, c: nat)
    requires a <= b
    ensures a * c <= b * c
  {
  }

  lemma MulSucc(a: int, n: int)
    ensures (a + 1) * n == a * n + n
  {
  }

  /** Quotient and remainder are the only such pair. */
  lemma DivModUnique(x: int, d: int, q: int, r: int)
    requires d > 0 && x == q * d + r && 0 <= r < d
    ensures x / d == q && x % d == r
  {
    var q', r' := x / d, x % d;
    assert x == q' * d + r';
    assert (q - q') * d == r' - r;
    if q > q' {
      MulLe(1, q - q', d);
    } else if q < q' {
      MulLe(1, q' - q, d);
    }
  }

  /** Reducing a running sum at every step gives the reduced total. */
  lemma ModAdd(a: int, b: int, m: int)
    requires m > 0
    ensures (a % m + b) % m == (a + b) % m
  {
    DivModUnique(a % m + b, m, (a % m + b) / m, (a % m + b) % m);
    DivModUnique(a + b, m, a / m + (a % m + b) / m, (a % m + b) % m);
  }

  /** `uint16_t` addition of a byte: at most one wrap. */
  lemma Wrap16Add(a: nat, b: U8)
    ensures var s := a % 0x1_0000 + b;
      (a + b) % 0x1_0000 == if s >= 0x1_0000 then s - 0x1_0000 else s
  {
    ModAdd(a, b, 0x1_0000);
    var s := a % 0x1_0000 + b;
    if s >= 0x1_0000 {
      DivModUnique(s, 0x1_0000, 1, s - 0x1_0000);
    } else {
      DivModUnique(s, 0x1_0000, 0, s);
    }
  }

  function Pow2(n: nat): (r: nat)
    ensures r >= 1
  {
    if n == 0 then 1 else 2 * Pow2(n - 1)
  }

  lemma Pow2Add(a: nat, b: nat)
    ensures Pow2(a + b) == Pow2(a) * Pow2(b)
  {
    if a > 0 {
      Pow2Add(a - 1, b);
    }
  }

  lemma Pow2Monotone(a: nat, b: nat)
    requires a <= b
    ensures Pow2(a) <= Pow2(b)
  {
    if a < b {
      Pow2Monotone(a, b - 1);
    }
  }

  /** `(w & (1u << i)) != 0`: bit `i` of `w`, counting from the least
      significant bit. */
  predicate Bit(w: nat, i: nat) {
    if i == 0 then w % 2 == 1 else Bit(w / 2, i - 1)
  }

  /** The bits of `2 * v + b` above bit 0 are the bits of `v`. */
  lemma BitOfDouble(v: nat, b: nat, k: nat)
    requires b < 2
    ensures Bit(2 * v + b, k + 1) == Bit(v, k)
    ensures Bit(2 * v + b, 0) == (b == 1)
  {
    assert (2 * v + b) / 2 == v;
  }

  /** No bit at or above `n` is set in a value below 2^n. */
  lemma {:induction false} BitAboveWidth(w: nat, n: nat, i: nat)
    requires w < Pow2(n) && i >= n
    ensures !Bit(w, i)
  {
    if i > 0 {
      if n > 0 {
        BitAboveWidth(w / 2, n - 1, i - 1);
      } else {
        assert w == 0;
        BitAboveWidth(0, 0, i - 1);
      }
    }
  }

  /** `__builtin_bswap16`. */
  function Bswap16(x: U16): (r: U16)
    ensures r / 256 == x % 256 && r % 256 == x / 256
  {
    (x % 256) * 256 + x / 256
  }

  lemma Bswap16Involutive(x: U16)
    ensures Bswap16(Bswap16(x)) == x
  {
  }

  /** The value of two bytes read most significant first. */
  function BigEndian16(hi: U8, lo: U8): (r: U16)
    ensures r / 256 == hi && r % 256 == lo
  {
    hi * 256 + lo
  }

  /** C conversion of an integer to `int16_t` (two's complement wrap). */
  function ToInt16(x: int): (r: int)
    ensures -0x8000 <= r < 0x8000
    ensures (r - x) % 0x1_0000 == 0
  {
    var m := x % 0x1_0000;
    if m >= 0x8000 then m - 0x1_0000 else m
  }

  /** C conversion of an integer to `uint32_t`. */
  function ToU32(x: int): (r: U32)
    ensures (r - x) % 0x1_0000_0000 == 0
  {
    x % 0x1_0000_0000
  }

  /** C integer division, which truncates toward zero: `a == q * b + r`
      where the remainder `r` has the sign of `a` and is smaller than `b`
      in magnitude, so `q` has the sign of `a` (or is 0) and
      `|q| * b <= |a|`. */
  function TruncDiv(a: int, b: int): (q: int)
    requires b > 0
    ensures a >= 0 ==> 0 <= a - q * b < b
    ensures a < 0 ==> -b < a - q * b <= 0
  {
    if a >= 0 then a / b else -((-a) / b)
  }

  /** The rule determines the quotient: any `q` meeting it is `TruncDiv`.
      For a negative dividend that is not a multiple of `b` it differs from
      the Euclidean `/`: -1 divided by 4 is 0 in C and -1 in Dafny. */
  lemma TruncDivUnique(a: int, b: int, q: int)
    requires b > 0
    requires a >= 0 ==> 0 <= a - q * b < b
    requires a < 0 ==> -b < a - q * b <= 0
    ensures q == TruncDiv(a, b)
    ensures TruncDiv(-1, 4) == 0 && -1 / 4 == -1
  {
    var t := TruncDiv(a, b);
    if q > t {
      MulLe(t + 1, q, b);
      MulSucc(t, b);
    } else if q < t {
      MulLe(q + 1, t, b);
      MulSucc(q, b);
    }
  }

  function Abs(x: int): nat { if x < 0 then -x else x }
}

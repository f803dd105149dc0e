/** Fixed-width unsigned integers and little-endian byte strings: the
    displacement and immediate fields of the amd64 encoding are written least
    significant byte first. */
module Bytes {

  datatype Option<T> = None | Some(value: T)

  /** `uint8_t`. */
  newtype byte = b: int | 0 <= b < 0x100

  /** `uint16_t`. */
  newtype uint16 = x: int | 0 <= x < 0x1_0000

  /** `uint32_t`. */
  newtype uint32 = x: int | 0 <= x < 0x1_0000_0000

  function Pow256(n: nat): (p: nat)
    ensures p > 0
  {
    if n == 0 then 1 else 256 * Pow256(n - 1)
  }

  /** The `n` low-order bytes of the two's complement of `x`, least significant
      first: byte `i` is `(uint8_t)((uint64_t)x >> (8 * i))`. */
  function LeBytes(x: int, n: nat): (bs: seq<byte>)
    ensures |bs| == n
    decreases n
  {
    if n == 0 then [] else [(x % 256) as byte] + LeBytes(x / 256, n - 1)
  }

  /** The unsigned value of a little-endian byte string. */
  function LeValue(bs: seq<byte>): (v: nat)
    ensures v < Pow256(|bs|)
  {
    if bs == [] then 0 else bs[0] as nat + 256 * LeValue(bs[1..])
  }

  /** The two's-complement value of a little-endian byte string, as a processor
      sign-extends a displacement or an immediate. */
  function SignedValue(bs: seq<byte>): (v: int)
    ensures |bs| > 0 ==> 0 <= Pow256(|bs|) + 2 * v && 2 * v < Pow256(|bs|)
  {
    var u := LeValue(bs);
    if 2 * u >= Pow256(|bs|) then u - Pow256(|bs|) else u
  }

  /** Euclidean division is unique. */
  lemma DivModUnique(x: int, d: int, q: int, r: int)
    requires d > 0 && 0 <= r < d && x == d * q + r
    ensures x / d == q && x % d == r
  {
    var q', r' := x / d, x % d;
    assert x == d * q' + r';
    if q' < q {
      assert d * (q - q') >= d by { MulAtLeast(d, q - q'); }
    } else if q' > q {
      assert d * (q' - q) >= d by { MulAtLeast(d, q' - q); }
    }
    assert d * q == d * q';
  }

  lemma MulAtLeast(d: int, k: int)
    requires d > 0 && k >= 1
    ensures d * k >= d
  {}

  /** Reading back `n` bytes of `x` gives `x` modulo 256^n. */
  lemma {:induction false} LeValueOfLeBytes(x: int, n: nat)
    ensures LeValue(LeBytes(x, n)) == x % Pow256(n)
    decreases n
  {
    if n == 0 {
      DivModUnique(x, 1, x, 0);
    } else {
      var bs := LeBytes(x, n);
      assert bs[1..] == LeBytes(x / 256, n - 1);
      LeValueOfLeBytes(x / 256, n - 1);
      assert LeValue(bs) == x % 256 + 256 * LeValue(bs[1..]);
      assert Pow256(n) == 256 * Pow256(n - 1);
      ModOfProduct(x, Pow256(n - 1));
    }
  }

  /** Taking `x` modulo `256 * p` keeps its low byte and the rest modulo `p`. */
  lemma ModOfProduct(x: int, p: int)
    requires p > 0
    ensures x % (256 * p) == x % 256 + 256 * ((x / 256) % p)
  {
    var q, r := x / 256, x % 256;
    var q2, r2 := q / p, q % p;
    assert x == 256 * q + r;
    assert q == p * q2 + r2;
    assert 256 * q == (256 * p) * q2 + 256 * r2;
    assert 256 * r2 + r < 256 * p;
    DivModUnique(x, 256 * p, q2, 256 * r2 + r);
  }

  /** A value that fits in `n` signed bytes reads back unchanged. */
  lemma SignedRoundTrip(x: int, n: nat)
    requires n >= 1 && 0 <= Pow256(n) + 2 * x && 2 * x < Pow256(n)
    ensures SignedValue(LeBytes(x, n)) == x
  {
    LeValueOfLeBytes(x, n);
    var p := Pow256(n);
    if x >= 0 {
      DivModUnique(x, p, 0, x);
    } else {
      DivModUnique(x, p, -1, x + p);
    }
  }

  /** An unsigned 32-bit value reads back unchanged from its four bytes. */
  lemma UnsignedRoundTrip(x: uint32)
    ensures LeValue(LeBytes(x as int, 4)) == x as int
  {
    LeValueOfLeBytes(x as int, 4);
    DivModUnique(x as int, Pow256(4), 0, x as int);
  }
}

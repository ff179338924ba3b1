/** Fixed-width machine words as bounded integers, and their little-endian byte forms. */
module Words {
  type byte = x: int | 0 <= x < 0x100
  type u16 = x: int | 0 <= x < 0x1_0000
  type u32 = x: int | 0 <= x < 0x1_0000_0000
  type i32 = x: int | -0x8000_0000 <= x < 0x8000_0000
  type i64 = x: int | -0x8000_0000_0000_0000 <= x < 0x8000_0000_0000_0000
  type u64 = x: int | 0 <= x < 0x1_0000_0000_0000_0000
  type u128 = x: int | 0 <= x < 0x1_0000_0000_0000_0000_0000_0000_0000_0000

  const TWO32: int := 0x1_0000_0000
  const TWO64: int := 0x1_0000_0000_0000_0000

  datatype Option<+T> = None | Some(value: T)

  function Abs(x: int): nat {
    if x < 0 then -x else x
  }

  /** The low 64 bits of an integer. */
  function Wrap64(x: int): u64 {
    x % 0x1_0000_0000_0000_0000
  }

  /** `a.wrapping_add(b)` */
  function WrapAdd(a: int, b: int): u64 {
    Wrap64(a + b)
  }

  /** `a.wrapping_sub(b)` */
  function WrapSub(a: int, b: int): u64 {
    Wrap64(a - b)
  }

  /** `a.wrapping_mul(b)` */
  function WrapMul(a: int, b: int): u64 {
    Wrap64(a * b)
  }

  function Wrap32(x: int): u32 {
    x % 0x1_0000_0000
  }

  /** `b as i8 as i64` */
  function SignExtend8(b: byte): int {
    if b < 0x80 then b else b - 0x100
  }

  /** `v as i32 as i64` */
  function SignExtend32(v: u32): int {
    if v < 0x8000_0000 then v else v - 0x1_0000_0000
  }

  lemma WrapInverse(x: u64, n: int)
    ensures WrapAdd(WrapSub(x, n), n) == x
    ensures WrapSub(WrapAdd(x, n), n) == x
  {
    var q, p := (x - n) / TWO64, (x + n) / TWO64;
    assert WrapSub(x, n) + n == x - TWO64 * q && WrapAdd(x, n) - n == x - TWO64 * p;
    ModUnique(TWO64, -q, x, x - TWO64 * q);
    ModUnique(TWO64, -p, x, x - TWO64 * p);
  }

  lemma WrapAddWrap(x: int, y: int)
    ensures WrapAdd(x, Wrap64(y)) == WrapAdd(x, y)
  {
  }

  function Pow256(n: nat): (p: nat)
    ensures p > 0
  {
    if n == 0 then 1 else 256 * Pow256(n - 1)
  }

  /** `from_le_bytes` */
  function LeValue(bs: seq<byte>): (v: nat)
    ensures v < Pow256(|bs|)
  {
    if bs == [] then 0 else bs[0] + 256 * LeValue(bs[1..])
  }

  /** `to_le_bytes`, cut to n bytes */
  function LeBytes(v: nat, n: nat): (bs: seq<byte>)
    ensures |bs| == n
  {
    if n == 0 then [] else [v % 256] + LeBytes(v / 256, n - 1)
  }

  lemma PowersOf256()
    ensures Pow256(1) == 0x100
    ensures Pow256(2) == 0x1_0000
    ensures Pow256(4) == 0x1_0000_0000
    ensures Pow256(8) == 0x1_0000_0000_0000_0000
    ensures Pow256(10) == 0x1_0000_0000_0000_0000_0000
    ensures Pow256(16) == 0x1_0000_0000_0000_0000_0000_0000_0000_0000
  {
    assert Pow256(3) == 0x100_0000;
    assert Pow256(5) == 0x100_0000_0000;
    assert Pow256(7) == 0x100_0000_0000_0000;
    assert Pow256(9) == 0x100_0000_0000_0000_0000;
    assert Pow256(11) == 0x100_0000_0000_0000_0000_0000;
    assert Pow256(13) == 0x100_0000_0000_0000_0000_0000_0000;
    assert Pow256(15) == 0x100_0000_0000_0000_0000_0000_0000_0000;
  }

  /** Writing a number out and reading it back keeps its low n bytes. */
  lemma {:induction false} LeValueOfBytes(v: nat, n: nat)
    ensures LeValue(LeBytes(v, n)) == v % Pow256(n)
  {
    if n == 0 {
    } else {
      LeValueOfBytes(v / 256, n - 1);
      assert LeBytes(v, n)[1..] == LeBytes(v / 256, n - 1);
      ModOfProduct(v, Pow256(n - 1));
    }
  }

  lemma ModOfProduct(v: nat, p: nat)
    requires p > 0
    ensures v % (256 * p) == 256 * (v / 256 % p) + v % 256
  {
    var q, r := v / 256 / p, v / 256 % p;
    assert v / 256 == p * q + r;
    assert 256 * (p * q) == (256 * p) * q;
    ModUnique(256 * p, q, 256 * r + v % 256, v);
  }

  lemma MulBelow(m: int, d: int)
    requires m > 0
    ensures d >= 1 ==> m * d >= m
    ensures d <= -1 ==> m * d <= -m
  {
  }

  lemma ModUnique(m: int, q: int, r: int, v: int)
    requires m > 0 && 0 <= r < m && v == m * q + r
    ensures v % m == r && v / m == q
  {
    var d := q - v / m;
    assert m * d == m * q - m * (v / m);
    assert m * d == v % m - r;
    MulBelow(m, d);
    assert d == 0;
  }

  /** A byte string is determined by its length and its value. */
  lemma {:induction false} LeBytesOfValue(bs: seq<byte>)
    ensures LeBytes(LeValue(bs), |bs|) == bs
  {
    if bs == [] {
    } else {
      LeBytesOfValue(bs[1..]);
      var v := LeValue(bs);
      assert v % 256 == bs[0] && v / 256 == LeValue(bs[1..]);
    }
  }

  lemma LeRoundTrip128(v: u128)
    ensures LeValue(LeBytes(v, 16)) == v
  {
    LeValueOfBytes(v, 16);
    PowersOf256();
    ModUnique(Pow256(16), 0, v, v);
  }

  lemma LeRoundTrip64(v: u64)
    ensures LeValue(LeBytes(v, 8)) == v
  {
    LeValueOfBytes(v, 8);
    PowersOf256();
    ModUnique(Pow256(8), 0, v, v);
  }

  lemma LeRoundTrip32(v: u32)
    ensures LeValue(LeBytes(v, 4)) == v
  {
    LeValueOfBytes(v, 4);
    PowersOf256();
  }
}

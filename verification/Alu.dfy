/** Integer arithmetic of the interpreter: results cut to the operand size, and the
    status flags. Operands are naturals; a mask to the operand size is a remainder. */
module Alu {
  import opened Words
  import opened BitOps
  import opened CpuModel

  type Size = s: int | s == 1 || s == 2 || s == 4 || s == 8 witness 1

  /** 2 to the operand's number of bits: `mask(size) + 1` */
  function Modulus(size: Size): (m: int)
    ensures m >= 0x100 && m % 2 == 0 && m <= TWO64
  {
    match size
    case 1 => 0x100
    case 2 => 0x1_0000
    case 4 => 0x1_0000_0000
    case _ => 0x1_0000_0000_0000_0000
  }

  /** `v & mask(size)` */
  function Cut(v: int, size: Size): (r: u64)
    ensures 0 <= r < Modulus(size)
  {
    v % Modulus(size)
  }

  /** `v & sign_bit(size) != 0`, for a v already cut to size */
  predicate SignSet(v: nat, size: Size) {
    v >= Modulus(size) / 2
  }

  /** `sext(v, size) as i64` */
  function SignedOf(v: int, size: Size): (r: int)
    ensures -(Modulus(size) / 2) <= r < Modulus(size) / 2
  {
    var c := Cut(v, size);
    if SignSet(c, size) then c - Modulus(size) else c
  }

  function CountOnes(v: nat): nat {
    if v == 0 then 0 else v % 2 + CountOnes(v / 2)
  }

  /** Even number of ones in the low byte. */
  predicate Parity(v: nat) {
    CountOnes(v % 256) % 2 == 0
  }

  function SetSzp(f: Flags, res: nat, size: Size): Flags {
    var r := Cut(res, size);
    f.(zf := r == 0, sf := SignSet(r, size), pf := Parity(r))
  }

  function Add(f: Flags, a: nat, b: nat, carry: nat, size: Size): (u64, Flags) {
    var x, y := Cut(a, size), Cut(b, size);
    var full := x + y + carry;
    var res := Cut(full, size);
    var g := f.(cf := full / Modulus(size) % 2 != 0,
                af := Bit(Xor(Xor(x, y), res), 4),
                of := !Bit(Xor(x, y), 8 * size - 1) && Bit(Xor(x, res), 8 * size - 1));
    (res, SetSzp(g, res, size))
  }

  function Sub(f: Flags, a: nat, b: nat, borrow: nat, size: Size): (u64, Flags) {
    var x, y := Cut(a, size), Cut(b, size);
    var res := Cut(x - y - borrow, size);
    var g := f.(cf := x < y + borrow,
                af := Bit(Xor(Xor(x, y), res), 4),
                of := Bit(Xor(x, y), 8 * size - 1) && Bit(Xor(x, res), 8 * size - 1));
    (res, SetSzp(g, res, size))
  }

  function Logic(f: Flags, res: nat, size: Size): (u64, Flags) {
    (Cut(res, size), SetSzp(f.(cf := false, of := false, af := false), res, size))
  }

  /** The eight operations of the arithmetic group, by number. */
  function DoAlu(f: Flags, op: byte, a: nat, b: nat, size: Size): (u64, Flags) {
    var c := if f.cf then 1 else 0;
    match op
    case 0 => Add(f, a, b, 0, size)
    case 1 => Logic(f, Or(a, b), size)
    case 2 => Add(f, a, b, c, size)
    case 3 => Sub(f, a, b, c, size)
    case 4 => Logic(f, And(a, b), size)
    case 5 => Sub(f, a, b, 0, size)
    case 6 => Logic(f, Xor(a, b), size)
    case _ => (Wrap64(a), Sub(f, a, b, 0, size).1)
  }

  /** The condition code `tttn` of a Jcc, SETcc or CMOVcc. */
  predicate Cond(f: Flags, tttn: byte) {
    match tttn % 16
    case 0x0 => f.of
    case 0x1 => !f.of
    case 0x2 => f.cf
    case 0x3 => !f.cf
    case 0x4 => f.zf
    case 0x5 => !f.zf
    case 0x6 => f.cf || f.zf
    case 0x7 => !(f.cf || f.zf)
    case 0x8 => f.sf
    case 0x9 => !f.sf
    case 0xA => f.pf
    case 0xB => !f.pf
    case 0xC => f.sf != f.of
    case 0xD => f.sf == f.of
    case 0xE => f.zf || f.sf != f.of
    case _ => !f.zf && f.sf == f.of
  }
}

/** Guest memory: the mapped bytes, with reads and writes that fail as a whole
    when any byte of the range is unmapped. */
module GuestMemory {
  import opened Words

  type Memory = map<int, byte>

  datatype EmuError =
    | Unmapped(addr: int, len: nat)
    | Decode(rip: int, opcode: byte)

  datatype Result<+T> = Ok(value: T) | Err(error: EmuError)

  predicate Mapped(mem: Memory, addr: int, len: nat) {
    forall i :: addr <= i < addr + len ==> i in mem
  }

  function Bytes(mem: Memory, addr: int, len: nat): (bs: seq<byte>)
    requires Mapped(mem, addr, len)
    ensures |bs| == len
  {
    seq(len, i requires 0 <= i < len => mem[addr + i])
  }

  function Read(mem: Memory, addr: int, len: nat): Result<seq<byte>> {
    if Mapped(mem, addr, len) then Ok(Bytes(mem, addr, len)) else Err(Unmapped(addr, len))
  }

  function ReadUint(mem: Memory, addr: int, len: nat): (r: Result<nat>)
    ensures r.Ok? ==> r.value < Pow256(len)
  {
    match Read(mem, addr, len)
    case Ok(bs) => Ok(LeValue(bs))
    case Err(e) => Err(e)
  }

  function Read8(mem: Memory, addr: int): (r: Result<byte>) {
    if addr in mem then Ok(mem[addr]) else Err(Unmapped(addr, 1))
  }

  function Read32(mem: Memory, addr: int): (r: Result<u32>) {
    PowersOf256();
    ReadUint(mem, addr, 4)
  }

  function Read64(mem: Memory, addr: int): (r: Result<u64>) {
    PowersOf256();
    ReadUint(mem, addr, 8)
  }

  function Read128(mem: Memory, addr: int): (r: Result<u128>) {
    PowersOf256();
    ReadUint(mem, addr, 16)
  }

  function Store(mem: Memory, addr: int, bs: seq<byte>): (m: Memory)
    requires Mapped(mem, addr, |bs|)
    ensures m.Keys == mem.Keys
  {
    map k | k in mem :: if addr <= k < addr + |bs| then bs[k - addr] else mem[k]
  }

  function Write(mem: Memory, addr: int, bs: seq<byte>): Result<Memory> {
    if Mapped(mem, addr, |bs|) then Ok(Store(mem, addr, bs)) else Err(Unmapped(addr, |bs|))
  }

  /** The mapped addresses from pc up. */
  ghost function Above(mem: Memory, pc: int): set<int> {
    set a | a in mem && a >= pc
  }

  lemma AboveShrinks(mem: Memory, pc: int)
    requires pc in mem
    ensures Above(mem, pc + 1) < Above(mem, pc)
    ensures Above(mem, pc + 2) < Above(mem, pc)
  {
    assert pc in Above(mem, pc) && pc !in Above(mem, pc + 1);
  }

  /** A memory holds a byte string at an address. */
  ghost predicate Holds(mem: Memory, addr: int, bs: seq<byte>) {
    Read(mem, addr, |bs|) == Ok(bs)
  }

  lemma StoreHolds(mem: Memory, addr: int, bs: seq<byte>)
    requires Mapped(mem, addr, |bs|)
    ensures Holds(Store(mem, addr, bs), addr, bs)
  {
    assert Bytes(Store(mem, addr, bs), addr, |bs|) == bs;
  }

  /** What a range holds depends on the bytes of that range only. */
  lemma HoldsFrame(mem: Memory, mem': Memory, addr: int, bs: seq<byte>)
    requires Holds(mem, addr, bs)
    requires forall i :: addr <= i < addr + |bs| ==> i in mem' && mem'[i] == mem[i]
    ensures Holds(mem', addr, bs)
  {
    assert Bytes(mem', addr, |bs|) == Bytes(mem, addr, |bs|);
  }

  lemma HoldsRead64(mem: Memory, addr: int, v: u64)
    requires Holds(mem, addr, LeBytes(v, 8))
    ensures Read64(mem, addr) == Ok(v)
  {
    LeRoundTrip64(v);
  }

  lemma HoldsRead128(mem: Memory, addr: int, v: u128)
    requires Holds(mem, addr, LeBytes(v, 16))
    ensures Read128(mem, addr) == Ok(v)
  {
    LeRoundTrip128(v);
  }
}

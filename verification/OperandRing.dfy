// The operand ring shared by host and accelerator, and the 16-bit operand addresses.
module OperandRing {

  import opened Powers

  const NUM_OPERAND: nat := 3
  const NUM_FPGA_ENTRIES: nat := 8
  const NUM_OPERAND_PER_CACHELINE: nat := 8
  const TOTAL_ENTRIES: nat := 32

  type Bits = nat

  // An operand as the host leaves it in the ring; the id bit tells the laps apart.
  datatype Cell = Cell(val: Bits, validWithId: nat)

  // An operand as the accelerator holds it.
  datatype Operand = Ready(val: Bits) | Ref(entry: nat) | Fetch(cell: nat, id: nat)

  function CalcOffset(x: nat): nat {
    x % NUM_OPERAND_PER_CACHELINE
  }

  // 1 << (3 + cache line): the three low bits hold the offset.
  function CalcCachelineOneHot(x: nat): nat {
    var line := x % TOTAL_ENTRIES / NUM_OPERAND_PER_CACHELINE;
    if line == 0 then 8 else if line == 1 then 16 else if line == 2 then 32 else 64
  }

  function CalcId(x: nat): nat {
    x / TOTAL_ENTRIES % 2
  }

  // Where the host stores the operand, in bytes.
  function CalcByteOffset(x: nat): nat {
    CalcOffset(x) * 8 + x % TOTAL_ENTRIES / NUM_OPERAND_PER_CACHELINE * 64
  }

  // The address of the ring cell that request pointer x selects.
  function CellAddress(x: nat): nat {
    CalcOffset(x) + CalcCachelineOneHot(x) + CalcId(x) * 0x4000 + 0x8000
  }

  // The address of an entry whose result is the operand.
  function EntryAddress(location: nat): nat {
    location + 0x4000
  }

  // The index of the one bit set among bits 3 to 13.
  function OneHotIndex(v: nat): nat {
    if v < 2 then 0 else 1 + OneHotIndex(v / 2)
  }

  // How the accelerator reads an address: two mode bits above a 14-bit value.
  function Decode(addr: nat): Operand {
    var mode, value := addr / 0x4000, addr % 0x4000;
    if mode == 0 then Ready(value)
    else if mode == 1 then Ref(value)
    else Fetch(OneHotIndex(value / 8) * NUM_OPERAND_PER_CACHELINE + value % 8, mode % 2)
  }

  // Request number n goes to cell n % 32 with the parity of its lap as id, although the pointer
  // the address is made from is a byte that wraps every 256 requests.
  lemma AddressDecodes(n: nat)
    ensures Decode(CellAddress(n % 256)) == Fetch(n % 32, n / 32 % 2)
    ensures CalcByteOffset(n % 256) == 8 * (n % 32)
  {
    PointerWrap(n);
    var x := n % 256;
    var line, o := x % 32 / 8, x % 8;
    assert x % 32 == 8 * line + o;
    assert OneHotIndex(1) == 0 && OneHotIndex(2) == 1;
    assert OneHotIndex(4) == 1 + OneHotIndex(2) && OneHotIndex(8) == 1 + OneHotIndex(4);
    var id := CalcId(x);
    var oneHot := CalcCachelineOneHot(x);
    assert CellAddress(x) / 0x4000 == 2 + id && CellAddress(x) % 0x4000 == o + oneHot;
    assert (o + oneHot) / 8 == oneHot / 8 && (o + oneHot) % 8 == o;
  }

  lemma PointerWrap(n: nat)
    ensures n % 256 % 32 == n % 32 && n % 256 / 32 % 2 == n / 32 % 2
  {
    var q, r := n / 256, n % 256;
    AddMultiple(8 * q, 32, r);
    assert n == 8 * q * 32 + r;
    AddMultiple(4 * q, 2, r / 32);
    assert 8 * q + r / 32 == 4 * q * 2 + r / 32;
  }

  lemma EntryAddressDecodes(location: nat)
    requires location < NUM_FPGA_ENTRIES
    ensures Decode(EntryAddress(location)) == Ref(location)
  {
  }

  // Two requests fewer than 32 apart use different cells; exactly 32 apart, the same cell with
  // the other id.
  lemma LapsAlternate(n: nat, d: nat)
    requires 1 <= d <= 32
    ensures n % 32 == (n + d) % 32 <==> d == 32
    ensures d == 32 ==> CalcId(n % 256) != CalcId((n + d) % 256)
  {
    PointerWrap(n);
    PointerWrap(n + d);
  }
}

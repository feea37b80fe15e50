/** The table of protected regions and the pass that repairs redundant copies, as functions.
    Memory is one sequence of bytes, an address is an index into it, and the CRC is arbitrary. */
module Regions {
  import opened Bits

  const MAX_PROTECTED_REGIONS: nat := 16
  const PAGE_SIZE: nat := 4096
  const STACK_GUARD_SIZE: nat := PAGE_SIZE
  const PROT_READ: uint32 := 1
  const PROT_WRITE: uint32 := 2

  const MEM_ERR_NO_MEMORY: int := -2
  const MEM_ERR_OVERLAP: int := -4
  const MEM_ERR_NOT_ALIGNED: int := -5

  type Crc = seq<byte> -> uint32

  datatype Region = Region(start: nat, size: nat, flags: uint32, crc: uint32, redundant: bool, partner: nat)

  predicate IsAligned(address: nat, alignment: nat)
    requires alignment > 0
  {
    address % alignment == 0
  }

  predicate Overlap(a: nat, n: nat, b: nat, m: nat) {
    a < b + m && b < a + n
  }

  function Slice(mem: seq<byte>, a: nat, n: nat): seq<byte>
    requires a + n <= |mem|
  {
    mem[a..a + n]
  }

  // ---------------------------------------------------------------- registration

  datatype Registered = Registered(table: seq<Region>, ret: int)

  predicate OverlapsTable(table: seq<Region>, address: nat, size: nat) {
    exists r <- table :: Overlap(address, size, r.start, r.size)
  }

  /** `protect_memory_region` on the memory as it is now. */
  function Protect(crc: Crc, table: seq<Region>, mem: seq<byte>, address: nat, size: nat, flags: uint32): Registered
    requires address + size <= |mem|
  {
    if !IsAligned(address, PAGE_SIZE) then Registered(table, MEM_ERR_NOT_ALIGNED)
    else if |table| >= MAX_PROTECTED_REGIONS then Registered(table, MEM_ERR_NO_MEMORY)
    else if OverlapsTable(table, address, size) then Registered(table, MEM_ERR_OVERLAP)
    else Registered(table + [Region(address, size, flags, crc(Slice(mem, address, size)), false, 0)], 0)
  }

  /** The upper guard page lies in memory. */
  predicate StackInMemory(mem: seq<byte>, stack: nat, stackSize: nat) {
    stack + STACK_GUARD_SIZE <= |mem| && STACK_GUARD_SIZE <= stack + stackSize <= |mem|
  }

  /** `setup_stack_protection`: a guard page at each end. */
  function ProtectStack(crc: Crc, table: seq<Region>, mem: seq<byte>, stack: nat, stackSize: nat): Registered
    requires StackInMemory(mem, stack, stackSize)
  {
    var low := Protect(crc, table, mem, stack, STACK_GUARD_SIZE, 0);
    if low.ret != 0 then low
    else Protect(crc, low.table, mem, stack + stackSize - STACK_GUARD_SIZE, STACK_GUARD_SIZE, 0)
  }

  /** The last two entries made into a pair. */
  function MarkPair(table: seq<Region>, primary: nat, secondary: nat): seq<Region>
    requires |table| >= 2
  {
    var n := |table|;
    table[n - 2 := table[n - 2].(redundant := true, partner := secondary)]
         [n - 1 := table[n - 1].(redundant := true, partner := primary)]
  }

  /** `setup_redundant_memory`. */
  function SetupRedundant(crc: Crc, table: seq<Region>, mem: seq<byte>,
                          primary: nat, secondary: nat, size: nat): Registered
    requires primary + size <= |mem| && secondary + size <= |mem|
  {
    if |table| >= MAX_PROTECTED_REGIONS - 1 then Registered(table, MEM_ERR_NO_MEMORY)
    else
      var first := Protect(crc, table, mem, primary, size, PROT_READ + PROT_WRITE);
      if first.ret != 0 then first
      else
        var second := Protect(crc, first.table, mem, secondary, size, PROT_READ + PROT_WRITE);
        if second.ret != 0 then second
        else Registered(MarkPair(second.table, primary, secondary), 0)
  }

  // ---------------------------------------------------------------- the check

  /** Every region, and every copy it points to, lies in memory. */
  predicate InMemory(table: seq<Region>, size: nat) {
    forall r <- table :: r.start + r.size <= size && (r.redundant ==> r.partner + r.size <= size)
  }

  datatype Checked = Checked(mem: seq<byte>, violations: seq<nat>)

  predicate Intact(crc: Crc, mem: seq<byte>, r: Region)
    requires r.start + r.size <= |mem|
  {
    crc(Slice(mem, r.start, r.size)) == r.crc
  }

  /** The check of one region. A region whose own CRC fails is reported and left alone; one
      that differs from its copy is reported and copied over it. */
  function CheckRegion(crc: Crc, mem: seq<byte>, r: Region): (c: Checked)
    requires r.start + r.size <= |mem| && (r.redundant ==> r.partner + r.size <= |mem|)
    ensures |c.mem| == |mem|
  {
    if r.start == 0 then Checked(mem, [])
    else if !Intact(crc, mem, r) then Checked(mem, [r.start])
    else if r.redundant && r.partner != 0 && Slice(mem, r.start, r.size) != Slice(mem, r.partner, r.size) then
      Checked(Overwritten(mem, r.partner, Slice(mem, r.start, r.size)), [r.start])
    else Checked(mem, [])
  }

  /** `periodic_memory_check` from entry `i` on. */
  function CheckFrom(crc: Crc, table: seq<Region>, mem: seq<byte>, i: nat): (c: Checked)
    requires InMemory(table, |mem|) && i <= |table|
    ensures |c.mem| == |mem|
    decreases |table| - i
  {
    if i == |table| then Checked(mem, [])
    else
      var here := CheckRegion(crc, mem, table[i]);
      var rest := CheckFrom(crc, table, here.mem, i + 1);
      Checked(rest.mem, here.violations + rest.violations)
  }

  function CheckPass(crc: Crc, table: seq<Region>, mem: seq<byte>): Checked
    requires InMemory(table, |mem|)
  {
    CheckFrom(crc, table, mem, 0)
  }
}

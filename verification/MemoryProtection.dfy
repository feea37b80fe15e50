/** The protected-memory service as the firmware has it: one byte array, a table that grows, and
    a pass that repairs redundant copies in place. */
module MemoryProtection {
  import opened Bits
  import opened Regions
  import opened RegionTable

  class Memory {
    const bytes: array<byte>
    const crc: Crc
    var regions: seq<Region>
    // The addresses given to `handle_memory_violation`.
    var violations: seq<nat>

    constructor (bytes: array<byte>, crc: Crc)
      ensures this.bytes == bytes && this.crc == crc && regions == [] && violations == [] && Valid()
    {
      this.bytes, this.crc, regions, violations := bytes, crc, [], [];
    }

    ghost predicate Valid()
      reads this
    {
      TableInv(regions) && InMemory(regions, bytes.Length)
    }

    /** `protect_memory_region`; its loop looks for an overlapping region. */
    method ProtectRegion(address: nat, size: nat, flags: uint32) returns (ret: int)
      requires Valid() && address + size <= bytes.Length
      modifies this`regions
      ensures Valid()
      ensures Registered(regions, ret) == Protect(crc, old(regions), bytes[..], address, size, flags)
    {
      ProtectKeepsTable(crc, regions, bytes[..], address, size, flags);
      if !IsAligned(address, PAGE_SIZE) {
        return MEM_ERR_NOT_ALIGNED;
      }
      if |regions| >= MAX_PROTECTED_REGIONS {
        return MEM_ERR_NO_MEMORY;
      }
      for i := 0 to |regions|
        invariant forall k | 0 <= k < i :: !Overlap(address, size, regions[k].start, regions[k].size)
      {
        if Overlap(address, size, regions[i].start, regions[i].size) {
          return MEM_ERR_OVERLAP;
        }
      }
      assert !OverlapsTable(regions, address, size);
      assert bytes[address..address + size] == Slice(bytes[..], address, size);
      regions := regions + [Region(address, size, flags, crc(bytes[address..address + size]), false, 0)];
      ret := 0;
    }

    /** `setup_stack_protection`. */
    method SetupStack(stack: nat, stackSize: nat) returns (ret: int)
      requires Valid() && StackInMemory(bytes[..], stack, stackSize)
      modifies this`regions
      ensures Valid()
      ensures Registered(regions, ret) == ProtectStack(crc, old(regions), bytes[..], stack, stackSize)
    {
      ret := ProtectRegion(stack, STACK_GUARD_SIZE, 0);
      if ret != 0 {
        return;
      }
      ret := ProtectRegion(stack + stackSize - STACK_GUARD_SIZE, STACK_GUARD_SIZE, 0);
    }

    /** `setup_redundant_memory`. */
    method SetupRedundantMemory(primary: nat, secondary: nat, size: nat) returns (ret: int)
      requires Valid() && primary + size <= bytes.Length && secondary + size <= bytes.Length
      modifies this`regions
      ensures Valid()
      ensures Registered(regions, ret) == SetupRedundant(crc, old(regions), bytes[..], primary, secondary, size)
    {
      RedundantKeepsTable(crc, regions, bytes[..], primary, secondary, size);
      if |regions| >= MAX_PROTECTED_REGIONS - 1 {
        return MEM_ERR_NO_MEMORY;
      }
      ret := ProtectRegion(primary, size, PROT_READ + PROT_WRITE);
      if ret != 0 {
        return;
      }
      ret := ProtectRegion(secondary, size, PROT_READ + PROT_WRITE);
      if ret != 0 {
        return;
      }
      regions := MarkPair(regions, primary, secondary);
    }

    /** `verify_memory_region`, on a region of the table. */
    method VerifyRegion(start: nat, size: nat, expected: uint32) returns (ok: bool)
      requires start + size <= bytes.Length
      ensures ok <==> crc(Slice(bytes[..], start, size)) == expected
    {
      assert bytes[start..start + size] == Slice(bytes[..], start, size);
      ok := crc(bytes[start..start + size]) == expected;
    }

    /** `verify_redundant_memory`. */
    method VerifyRedundant(primary: nat, secondary: nat, size: nat) returns (same: bool)
      requires primary + size <= bytes.Length && secondary + size <= bytes.Length
      ensures same <==> Slice(bytes[..], primary, size) == Slice(bytes[..], secondary, size)
    {
      assert bytes[primary..primary + size] == Slice(bytes[..], primary, size);
      assert bytes[secondary..secondary + size] == Slice(bytes[..], secondary, size);
      same := bytes[primary..primary + size] == bytes[secondary..secondary + size];
    }

    /** `memcpy` of one copy over the other. */
    method CopyOver(from: nat, to: nat, size: nat)
      requires from + size <= bytes.Length && to + size <= bytes.Length
      modifies bytes
      ensures bytes[..] == Overwritten(old(bytes[..]), to, Slice(old(bytes[..]), from, size))
    {
      ghost var before := bytes[..];
      forall k | 0 <= k < size { bytes[to + k] := bytes[from + k]; }
      ghost var after := Overwritten(before, to, Slice(before, from, size));
      forall k | 0 <= k < bytes.Length ensures bytes[k] == after[k] {
        OverwrittenAt(before, to, Slice(before, from, size), k);
      }
    }

    /** The body of the checking loop. The recovery from the other copy cannot be reached: the
        region was verified just before, and nothing has written memory since. */
    method CheckEntry(i: nat)
      requires Valid() && i < |regions|
      modifies this`violations, bytes
      ensures var here := CheckRegion(crc, old(bytes[..]), regions[i]);
              bytes[..] == here.mem && violations == old(violations) + here.violations
    {
      var r := regions[i];
      assert r in regions;
      if r.start == 0 {
        return;
      }
      var ok := VerifyRegion(r.start, r.size, r.crc);
      if !ok {
        violations := violations + [r.start];
        return;
      }
      if r.redundant && r.partner != 0 {
        var same := VerifyRedundant(r.start, r.partner, r.size);
        if !same {
          violations := violations + [r.start];
          ok := VerifyRegion(r.start, r.size, r.crc);
          if ok {
            CopyOver(r.start, r.partner, r.size);
          } else {
            assert false;
          }
        }
      }
    }

    /** `periodic_memory_check`: one pass over the table. */
    method PeriodicCheck()
      requires Valid()
      modifies this`violations, bytes
      ensures Valid()
      ensures var pass := CheckPass(crc, regions, old(bytes[..]));
              bytes[..] == pass.mem && violations == old(violations) + pass.violations
    {
      ghost var pass := CheckPass(crc, regions, bytes[..]);
      ghost var done: seq<nat> := [];
      var i := 0;
      while i < |regions|
        invariant 0 <= i <= |regions| && violations == old(violations) + done
        invariant pass == Resumed(done, CheckFrom(crc, regions, bytes[..], i))
      {
        ghost var here := CheckRegion(crc, bytes[..], regions[i]);
        ResumeStep(crc, regions, bytes[..], i, done);
        CheckEntry(i);
        done := done + here.violations;
        i := i + 1;
      }
    }
  }

  /** A pass that reported `done` before the rest of it. */
  ghost function Resumed(done: seq<nat>, rest: Checked): Checked {
    Checked(rest.mem, done + rest.violations)
  }

  lemma ResumeStep(crc: Crc, table: seq<Region>, mem: seq<byte>, i: nat, done: seq<nat>)
    requires InMemory(table, |mem|) && i < |table|
    ensures var here := CheckRegion(crc, mem, table[i]);
            Resumed(done, CheckFrom(crc, table, mem, i))
            == Resumed(done + here.violations, CheckFrom(crc, table, here.mem, i + 1))
  {
    var here := CheckRegion(crc, mem, table[i]);
    var rest := CheckFrom(crc, table, here.mem, i + 1);
    assert done + (here.violations + rest.violations) == done + here.violations + rest.violations;
  }
}
